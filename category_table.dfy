/**
 * The form logic of the category table (src/components/settings/CategoryTable.tsx):
 * the three-field validation, the trimmed duplicate test, the add / save /
 * delete handlers over the category store, and the pagination arithmetic
 * with its buttons. The component's props (`type`, `categories`) are
 * parameters of the handlers that use them.
 */
module CategoryTable {
  import opened Wrappers
  import opened Text
  import opened Types
  import opened IndexedDb

  /** `formData`: the 관, 항 and 목 inputs. */
  datatype FormData = FormData(section: string, category: string, subcategory: string)

  const EmptyForm: FormData := FormData("", "", "")

  /** Which input of the form an edit goes to. */
  datatype FormField = SectionField | CategoryField | SubcategoryField

  /** A toast: its message and whether it is the success kind. */
  datatype Toast = Toast(message: string, success: bool)

  const SectionRequired: string := "관을 입력해주세요."
  const CategoryRequired: string := "항을 입력해주세요."
  const SubcategoryRequired: string := "목을 입력해주세요."
  const DuplicateMessage: string := "이미 존재하는 카테고리입니다."
  const AddedMessage: string := "카테고리가 추가되었습니다."
  const AddFailedMessage: string := "카테고리 추가에 실패했습니다."

  /** `pageOptions`: the page sizes the selector offers. */
  const PageOptions: seq<int> := [10, 20, 30]

  // ---------------------------------------------------------------- validation and duplicates

  /** `validateForm`: the error for the first field that is blank after trimming, in the order 관, 항, 목; None when all are filled. */
  function ValidateForm(f: FormData): Option<string> {
    if Trim(f.section) == "" then Some(SectionRequired)
    else if Trim(f.category) == "" then Some(CategoryRequired)
    else if Trim(f.subcategory) == "" then Some(SubcategoryRequired)
    else None
  }

  /**
   * Validation fails exactly when some field is only whitespace, and the
   * error names the first such field.
   */
  lemma ValidateFormIff(f: FormData)
    ensures ValidateForm(f).None? <==> !AllSpace(f.section) && !AllSpace(f.category) && !AllSpace(f.subcategory)
    ensures ValidateForm(f) == Some(SectionRequired) <==> AllSpace(f.section)
    ensures ValidateForm(f) == Some(CategoryRequired) <==> !AllSpace(f.section) && AllSpace(f.category)
    ensures ValidateForm(f) == Some(SubcategoryRequired) <==>
      !AllSpace(f.section) && !AllSpace(f.category) && AllSpace(f.subcategory)
  {
    TrimEmptyIff(f.section);
    TrimEmptyIff(f.category);
    TrimEmptyIff(f.subcategory);
  }

  /** The entry test inside `isDuplicate`: the same type and the same trimmed names, compared exactly. */
  predicate SameEntry(cat: Record, kind: string, f: FormData) {
    && cat.kind == kind
    && Trim(cat.section) == Trim(f.section)
    && Trim(cat.category) == Trim(f.category)
    && Trim(cat.subcategory) == Trim(f.subcategory)
  }

  /** `isDuplicate`: `categories.some(…)`. */
  function IsDuplicate(cats: seq<Record>, kind: string, f: FormData): bool {
    |cats| > 0 && (SameEntry(cats[0], kind, f) || IsDuplicate(cats[1..], kind, f))
  }

  /** A new entry is a duplicate exactly when some listed category has its type and trimmed names. */
  lemma {:induction false} IsDuplicateIff(cats: seq<Record>, kind: string, f: FormData)
    ensures IsDuplicate(cats, kind, f) <==> exists i :: 0 <= i < |cats| && SameEntry(cats[i], kind, f)
  {
    if |cats| > 0 {
      IsDuplicateIff(cats[1..], kind, f);
      if !SameEntry(cats[0], kind, f) && exists i :: 0 <= i < |cats| && SameEntry(cats[i], kind, f) {
        var i :| 0 <= i < |cats| && SameEntry(cats[i], kind, f);
        assert i != 0;
        assert cats[1..][i - 1] == cats[i];
      }
      if IsDuplicate(cats[1..], kind, f) {
        var i :| 0 <= i < |cats[1..]| && SameEntry(cats[1..][i], kind, f);
        assert cats[1..][i] == cats[i + 1];
      }
    }
  }

  /** The trimmed form `handleAdd` builds. */
  function TrimmedForm(f: FormData): FormData {
    FormData(Trim(f.section), Trim(f.category), Trim(f.subcategory))
  }

  /** Trimming the entry first does not change the duplicate test, which trims again. */
  lemma {:induction false} IsDuplicateOfTrimmed(cats: seq<Record>, kind: string, f: FormData)
    ensures IsDuplicate(cats, kind, TrimmedForm(f)) == IsDuplicate(cats, kind, f)
  {
    TrimIdempotent(f.section);
    TrimIdempotent(f.category);
    TrimIdempotent(f.subcategory);
    if |cats| > 0 {
      IsDuplicateOfTrimmed(cats[1..], kind, f);
    }
  }

  /** The guard of `handleSave`: only a field that is exactly the empty string refuses. */
  predicate SaveAllowed(f: FormData) {
    f.section != "" && f.category != "" && f.subcategory != ""
  }

  /** Saving is looser than adding: a whitespace-only field passes the save guard but not validation. */
  lemma SaveAcceptsBlank()
    ensures SaveAllowed(FormData(" ", " ", " ")) && ValidateForm(FormData(" ", " ", " ")) == Some(SectionRequired)
    ensures forall f :: ValidateForm(f).None? ==> SaveAllowed(f)
  {
    assert Trim(" ") == "" by {
      TrimEmptyIff(" ");
    }
  }

  /** The record `handleAdd` stores: the tab's type, the trimmed names and a fresh UUID as id, with no order. */
  function NewCategory(kind: CategoryType, uuid: string, f: FormData): Record {
    Record(Some(StrKey(uuid)), kind.Label(), Trim(f.section), Trim(f.category), Trim(f.subcategory), None)
  }

  /** The record `handleSave` writes: the row's id, the tab's type and the names as typed, with no order. */
  function EditedCategory(kind: CategoryType, id: Key, f: FormData): Record {
    Record(Some(id), kind.Label(), f.section, f.category, f.subcategory, None)
  }

  /** JavaScript truthiness of a key: the number 0 and the empty string are falsy. */
  predicate KeyTruthy(k: Key) {
    match k
    case NumKey(n) => n != 0
    case StrKey(s) => s != ""
  }

  // ---------------------------------------------------------------- pagination

  /** `totalPages`: `Math.ceil(n / itemsPerPage)`. */
  function TotalPages(n: nat, k: nat): nat
    requires k > 0
  {
    (n + k - 1) / k
  }

  /** The page count is the ceiling of n / k: the least page count whose pages hold n entries. */
  lemma TotalPagesIsCeiling(n: nat, k: nat)
    requires k > 0
    ensures TotalPages(n, k) * k >= n
    ensures TotalPages(n, k) == 0 || (TotalPages(n, k) - 1) * k < n
    ensures TotalPages(n, k) == 0 <==> n == 0
  {
    var t := TotalPages(n, k);
    var m := n + k - 1;
    assert m == t * k + m % k;
    assert m % k < k;
  }

  /** `categories.slice(startIndex, endIndex)` for page `page` of size `k` (slice clamps both ends to the length). */
  function PageSlice(cats: seq<Record>, page: int, k: nat): seq<Record>
    requires page >= 1
  {
    var start := (page - 1) * k;
    var end := start + k;
    if start >= |cats| then [] else cats[start..if end < |cats| then end else |cats|]
  }

  /** Page p holds the entries from (p-1)k on, at most k of them. */
  lemma PageSliceAt(cats: seq<Record>, page: int, k: nat)
    requires page >= 1
    ensures var start := (page - 1) * k;
      && |PageSlice(cats, page, k)| == (if start >= |cats| then 0 else if start + k < |cats| then k else |cats| - start)
      && forall i :: 0 <= i < |PageSlice(cats, page, k)| ==> PageSlice(cats, page, k)[i] == cats[start + i]
  {
  }

  /** The pages 1..p one after the other. */
  function PagesUpTo(cats: seq<Record>, k: nat, p: nat): seq<Record> {
    if p == 0 then [] else PagesUpTo(cats, k, p - 1) + PageSlice(cats, p, k)
  }

  lemma {:induction false} PagesUpToPrefix(cats: seq<Record>, k: nat, p: nat)
    ensures PagesUpTo(cats, k, p) == cats[..if p * k < |cats| then p * k else |cats|]
  {
    if p > 0 {
      PagesUpToPrefix(cats, k, p - 1);
      assert (p - 1) * k + k == p * k;
      var a := if (p - 1) * k < |cats| then (p - 1) * k else |cats|;
      var b := if p * k < |cats| then p * k else |cats|;
      assert cats[..a] + cats[a..b] == cats[..b];
    }
  }

  /** Pages 1..totalPages cover the list exactly once, in order, and any page past them is empty. */
  lemma PagesCover(cats: seq<Record>, k: nat)
    requires k > 0
    ensures PagesUpTo(cats, k, TotalPages(|cats|, k)) == cats
    ensures forall p :: p > TotalPages(|cats|, k) ==> PageSlice(cats, p, k) == []
  {
    TotalPagesIsCeiling(|cats|, k);
    PagesUpToPrefix(cats, k, TotalPages(|cats|, k));
    assert cats[..|cats|] == cats;
    forall p | p > TotalPages(|cats|, k) ensures PageSlice(cats, p, k) == [] {
      MulMonotone(p - 1, TotalPages(|cats|, k), k);
    }
  }

  lemma MulMonotone(a: int, b: int, k: nat)
    requires a >= b
    ensures a * k >= b * k
  {
    assert a * k == b * k + (a - b) * k;
  }

  /** The first and previous buttons are disabled on page 1. */
  predicate BackDisabled(page: int) {
    page == 1
  }

  /** The next and last buttons are disabled on the last page and when there are no pages. */
  predicate ForwardDisabled(page: int, total: nat) {
    page == total || total == 0
  }

  /** The page count shown, `totalPages || 1`. */
  function ShownPageCount(total: nat): nat {
    if total == 0 then 1 else total
  }

  /**
   * From a page between 1 and the shown page count, every enabled button
   * leads to a page in the same range, and the shown count is always 1 or
   * more. From a page past the shown count, which `confirmDelete` can leave
   * behind, the back buttons and, when there are pages, the forward buttons
   * are enabled: next goes further out, last comes back into range.
   */
  lemma NavigationInRange(page: int, total: nat)
    requires page >= 1
    ensures ShownPageCount(total) >= 1
    ensures page <= ShownPageCount(total) ==>
      && (!BackDisabled(page) ==> 1 <= page - 1 <= ShownPageCount(total))
      && (!ForwardDisabled(page, total) ==> 1 <= page + 1 <= ShownPageCount(total) && 1 <= total)
      && (ForwardDisabled(page, total) <==> page == ShownPageCount(total))
    ensures page > ShownPageCount(total) ==>
      && !BackDisabled(page)
      && (ForwardDisabled(page, total) <==> total == 0)
      && page + 1 > ShownPageCount(total)
      && (total >= 1 ==> 1 <= total <= ShownPageCount(total))
  {
  }

  /** Past the last page there is nothing to show, and the next page is empty too. */
  lemma {:induction false} PastLastPageEmpty(cats: seq<Record>, page: int, k: nat)
    requires k > 0 && page > TotalPages(|cats|, k)
    ensures PageSlice(cats, page, k) == [] && PageSlice(cats, page + 1, k) == []
  {
    PagesCover(cats, k);
  }

  /**
   * As written, deleting the only row of the last page strands the table on
   * a page past the end: with eleven categories at ten per page, page 2
   * holds one row; once it is gone there is one page, page 2 shows nothing,
   * '>' stays enabled, and it leads to page 3, which is empty as well.
   */
  lemma PageAfterLastDelete(cats: seq<Record>)
    requires |cats| == 11
    ensures |PageSlice(cats, 2, 10)| == 1
    ensures var rest := cats[..10];
      && TotalPages(|rest|, 10) == 1
      && ShownPageCount(TotalPages(|rest|, 10)) < 2
      && PageSlice(rest, 2, 10) == []
      && !ForwardDisabled(2, TotalPages(|rest|, 10))
      && PageSlice(rest, 3, 10) == []
  {
    PageSliceAt(cats, 2, 10);
    PastLastPageEmpty(cats[..10], 2, 10);
  }

  /** The page the table evidently means to show after the list shrinks to n entries: the current one, or the last if that is gone. */
  function ClampedPage(page: int, n: nat, k: nat): (r: int)
    requires k > 0 && page >= 1
    ensures 1 <= r <= ShownPageCount(TotalPages(n, k))
    ensures page <= ShownPageCount(TotalPages(n, k)) ==> r == page
  {
    var shown := ShownPageCount(TotalPages(n, k));
    if page > shown then shown else page
  }

  /** After clamping, a non-empty list always shows some rows. */
  lemma ClampedPageShowsRows(cats: seq<Record>, page: int, k: nat)
    requires k > 0 && page >= 1 && |cats| > 0
    ensures PageSlice(cats, ClampedPage(page, |cats|, k), k) != []
  {
    var p := ClampedPage(page, |cats|, k);
    TotalPagesIsCeiling(|cats|, k);
    MulMonotone(TotalPages(|cats|, k) - 1, p - 1, k);
  }

  // ---------------------------------------------------------------- the component's state

  class CategoryTableState {
    var editingId: Option<Key>
    var deleteId: Option<Key>
    var form: FormData
    var error: Option<string>
    var toast: Option<Toast>
    var isSubmitting: bool
    var currentPage: int
    var itemsPerPage: int

    /** The page is at least 1 and the page size is one the selector offers. */
    ghost predicate Valid()
      reads this
    {
      currentPage >= 1 && itemsPerPage in PageOptions
    }

    /** The initial state of every `useState`. */
    constructor ()
      ensures Valid()
      ensures editingId.None? && deleteId.None? && form == EmptyForm && error.None? && toast.None?
      ensures !isSubmitting && currentPage == 1 && itemsPerPage == 10
    {
      editingId, deleteId := None, None;
      form, error, toast := EmptyForm, None, None;
      isSubmitting := false;
      currentPage, itemsPerPage := 1, 10;
    }

    /** The `onChange` of an input of the add form: it clears the error and sets that field. */
    method ChangeAddField(field: FormField, v: string)
      modifies this
      ensures error.None?
      ensures form == match field
        case SectionField => old(form).(section := v)
        case CategoryField => old(form).(category := v)
        case SubcategoryField => old(form).(subcategory := v)
      ensures editingId == old(editingId) && deleteId == old(deleteId) && toast == old(toast)
      ensures isSubmitting == old(isSubmitting) && currentPage == old(currentPage) && itemsPerPage == old(itemsPerPage)
    {
      error := None;
      match field
      case SectionField => form := form.(section := v);
      case CategoryField => form := form.(category := v);
      case SubcategoryField => form := form.(subcategory := v);
    }

    /**
     * `handleAdd`. While a submit is running it does nothing. Otherwise a
     * blank field sets its error, and an entry that duplicates a listed
     * category sets the duplicate error; neither writes. Otherwise it adds
     * the trimmed entry with the tab's type under a fresh UUID (the result
     * of that request is returned), then clears the form and shows the
     * success toast, or keeps the form and shows the failure toast.
     */
    method HandleAdd(kind: CategoryType, categories: seq<Record>, db: CategoryDB, uuid: string, openFails: bool)
      returns (request: Option<Result<Key, DbError>>)
      requires Valid() && db.Valid()
      modifies this, db
      ensures Valid() && db.Valid()
      ensures editingId == old(editingId) && deleteId == old(deleteId)
      ensures currentPage == old(currentPage) && itemsPerPage == old(itemsPerPage)
      ensures old(isSubmitting) ==>
        && request.None? && isSubmitting && form == old(form) && error == old(error) && toast == old(toast)
        && db.disk == old(db.disk) && db.connected == old(db.connected)
      ensures !old(isSubmitting) ==> !isSubmitting
      ensures !old(isSubmitting) && ValidateForm(old(form)).Some? ==>
        && request.None? && error == ValidateForm(old(form)) && form == old(form) && toast == old(toast)
        && db.disk == old(db.disk) && db.connected == old(db.connected)
      ensures !old(isSubmitting) && ValidateForm(old(form)).None? && IsDuplicate(categories, kind.Label(), old(form)) ==>
        && request.None? && error == Some(DuplicateMessage) && form == old(form) && toast == old(toast)
        && db.disk == old(db.disk) && db.connected == old(db.connected)
      ensures !old(isSubmitting) && ValidateForm(old(form)).None? && !IsDuplicate(categories, kind.Label(), old(form)) ==>
        && request.Some? && error.None?
        && AddOutcome(old(db.disk), old(db.connected), openFails, NewCategory(kind, uuid, old(form)),
                      db.disk, db.connected, request.value)
        && (request.value.Success? ==> form == EmptyForm && toast == Some(Toast(AddedMessage, true)))
        && (request.value.Failure? ==> form == old(form) && toast == Some(Toast(AddFailedMessage, false)))
    {
      if isSubmitting {
        return None;
      }
      isSubmitting := true;
      error := None;
      var invalid := ValidateForm(form);
      if invalid.Some? {
        error := invalid;
        isSubmitting := false;
        return None;
      }
      var entry := TrimmedForm(form);
      IsDuplicateOfTrimmed(categories, kind.Label(), form);
      if IsDuplicate(categories, kind.Label(), entry) {
        error := Some(DuplicateMessage);
        isSubmitting := false;
        return None;
      }
      var res := db.AddCategory(NewCategory(kind, uuid, form), openFails);
      if res.Success? {
        form := EmptyForm;
        toast := Some(Toast(AddedMessage, true));
      } else {
        toast := Some(Toast(AddFailedMessage, false));
      }
      isSubmitting := false;
      request := Some(res);
    }

    /** `handleEdit`: start editing a row, loading its names into the form. */
    method HandleEdit(c: Record)
      modifies this
      ensures editingId == c.id && form == FormData(c.section, c.category, c.subcategory)
      ensures deleteId == old(deleteId) && error == old(error) && toast == old(toast)
      ensures isSubmitting == old(isSubmitting) && currentPage == old(currentPage) && itemsPerPage == old(itemsPerPage)
    {
      editingId := c.id;
      form := FormData(c.section, c.category, c.subcategory);
    }

    /** The `onChange` of an inline edit input: it sets that field and leaves the error alone. */
    method ChangeEditField(field: FormField, v: string)
      modifies this
      ensures form == match field
        case SectionField => old(form).(section := v)
        case CategoryField => old(form).(category := v)
        case SubcategoryField => old(form).(subcategory := v)
      ensures editingId == old(editingId) && deleteId == old(deleteId) && error == old(error) && toast == old(toast)
      ensures isSubmitting == old(isSubmitting) && currentPage == old(currentPage) && itemsPerPage == old(itemsPerPage)
    {
      match field
      case SectionField => form := form.(section := v);
      case CategoryField => form := form.(category := v);
      case SubcategoryField => form := form.(subcategory := v);
    }

    /**
     * `handleSave`: refuses only when a field is the empty string; otherwise
     * puts the untrimmed names under the row's id, with no duplicate test,
     * and stops editing once the write has succeeded.
     */
    method HandleSave(kind: CategoryType, id: Key, db: CategoryDB, openFails: bool)
      returns (request: Option<Outcome<DbError>>)
      requires db.Valid()
      modifies this, db
      ensures db.Valid()
      ensures form == old(form) && deleteId == old(deleteId) && error == old(error) && toast == old(toast)
      ensures isSubmitting == old(isSubmitting) && currentPage == old(currentPage) && itemsPerPage == old(itemsPerPage)
      ensures !SaveAllowed(old(form)) ==>
        request.None? && editingId == old(editingId) && db.disk == old(db.disk) && db.connected == old(db.connected)
      ensures SaveAllowed(old(form)) ==>
        && request.Some?
        && UpdateOutcome(old(db.disk), old(db.connected), openFails, EditedCategory(kind, id, old(form)),
                         db.disk, db.connected, request.value)
        && editingId == if request.value.Pass? then None else old(editingId)
    {
      if !SaveAllowed(form) {
        return None;
      }
      var res := db.UpdateCategory(EditedCategory(kind, id, form), openFails);
      if res.Pass? {
        editingId := None;
      }
      request := Some(res);
    }

    /** The inline cancel button: stop editing. */
    method CancelEdit()
      modifies this
      ensures editingId.None?
      ensures form == old(form) && deleteId == old(deleteId) && error == old(error) && toast == old(toast)
      ensures isSubmitting == old(isSubmitting) && currentPage == old(currentPage) && itemsPerPage == old(itemsPerPage)
    {
      editingId := None;
    }

    /** `handleDelete`: remember the row to delete, which opens the confirmation. */
    method HandleDelete(id: Key)
      modifies this
      ensures deleteId == Some(id)
      ensures editingId == old(editingId) && form == old(form) && error == old(error) && toast == old(toast)
      ensures isSubmitting == old(isSubmitting) && currentPage == old(currentPage) && itemsPerPage == old(itemsPerPage)
    {
      deleteId := Some(id);
    }

    /** `confirmDelete`: deletes only when a truthy `deleteId` is set, and clears it once the delete has succeeded. */
    method ConfirmDelete(db: CategoryDB, openFails: bool) returns (request: Option<Outcome<DbError>>)
      requires db.Valid()
      modifies this, db
      ensures db.Valid()
      ensures editingId == old(editingId) && form == old(form) && error == old(error) && toast == old(toast)
      ensures isSubmitting == old(isSubmitting) && currentPage == old(currentPage) && itemsPerPage == old(itemsPerPage)
      ensures !(old(deleteId).Some? && KeyTruthy(old(deleteId).value)) ==>
        request.None? && deleteId == old(deleteId) && db.disk == old(db.disk) && db.connected == old(db.connected)
      ensures old(deleteId).Some? && KeyTruthy(old(deleteId).value) ==>
        && request.Some?
        && DeleteOutcome(old(db.disk), old(db.connected), openFails, old(deleteId).value, db.disk, db.connected, request.value)
        && deleteId == if request.value.Pass? then None else old(deleteId)
    {
      if deleteId.Some? && KeyTruthy(deleteId.value) {
        var res := db.DeleteCategory(deleteId.value, openFails);
        if res.Pass? {
          deleteId := None;
        }
        request := Some(res);
      } else {
        request := None;
      }
    }

    /** The clamp `confirmDelete` evidently intends after a delete leaves n categories. */
    method ClampPage(n: nat)
      requires Valid()
      modifies this
      ensures Valid() && currentPage == ClampedPage(old(currentPage), n, itemsPerPage)
      ensures editingId == old(editingId) && deleteId == old(deleteId) && form == old(form) && itemsPerPage == old(itemsPerPage)
      ensures error == old(error) && toast == old(toast) && isSubmitting == old(isSubmitting)
    {
      currentPage := ClampedPage(currentPage, n, itemsPerPage);
    }

    /** Closing the confirmation without deleting. */
    method CloseDeleteModal()
      modifies this
      ensures deleteId.None?
      ensures editingId == old(editingId) && form == old(form) && error == old(error) && toast == old(toast)
      ensures isSubmitting == old(isSubmitting) && currentPage == old(currentPage) && itemsPerPage == old(itemsPerPage)
    {
      deleteId := None;
    }

    /** `handleItemsPerPageChange`: a new page size from the selector, back to page 1. */
    method HandleItemsPerPageChange(value: int)
      requires Valid() && value in PageOptions
      modifies this
      ensures Valid() && itemsPerPage == value && currentPage == 1
      ensures editingId == old(editingId) && deleteId == old(deleteId) && form == old(form)
      ensures error == old(error) && toast == old(toast) && isSubmitting == old(isSubmitting)
    {
      itemsPerPage := value;
      currentPage := 1;
    }

    /** The first-page and previous-page buttons, which do nothing while disabled. */
    method PressBack(toFirst: bool)
      requires Valid()
      modifies this
      ensures Valid()
      ensures currentPage == if BackDisabled(old(currentPage)) then old(currentPage)
                             else if toFirst then 1 else old(currentPage) - 1
      ensures editingId == old(editingId) && deleteId == old(deleteId) && form == old(form) && itemsPerPage == old(itemsPerPage)
      ensures error == old(error) && toast == old(toast) && isSubmitting == old(isSubmitting)
    {
      if !BackDisabled(currentPage) {
        currentPage := if toFirst then 1 else currentPage - 1;
      }
    }

    /** The next-page and last-page buttons for a list of n categories, which do nothing while disabled. */
    method PressForward(toLast: bool, n: nat)
      requires Valid()
      modifies this
      ensures Valid()
      ensures var total := TotalPages(n, old(itemsPerPage));
        currentPage == if ForwardDisabled(old(currentPage), total) then old(currentPage)
                       else if toLast then total else old(currentPage) + 1
      ensures editingId == old(editingId) && deleteId == old(deleteId) && form == old(form) && itemsPerPage == old(itemsPerPage)
      ensures error == old(error) && toast == old(toast) && isSubmitting == old(isSubmitting)
    {
      var total := TotalPages(n, itemsPerPage);
      if !ForwardDisabled(currentPage, total) {
        currentPage := if toLast then total else currentPage + 1;
      }
    }
  }
}
