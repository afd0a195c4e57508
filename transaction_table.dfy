/**
 * The transaction table (src/components/transaction/TransactionTable.tsx):
 * one row at a time is edited through a buffer that is handed to
 * `onUpdate` on save, and a deletion goes through a confirmation dialog
 * before `onDelete` is called. The callbacks are the values the methods
 * return.
 */
module TransactionTable {
  import opened Wrappers
  import opened Text
  import opened Types

  /** The fields the edit row has an input for; no input edits the id. */
  datatype EditField = DateField | TypeField | CategoryField | SubcategoryField | ItemField | AmountField | MemoField

  /** The amount input's conversion: the digits typed, as a number, or 0 when there are none. */
  function SanitizeAmount(v: string): nat {
    var d := KeepDigits(v);
    if d == "" then 0 else DigitsValue(d)
  }

  /** What one change does to the buffer: the amount is converted, every other field takes the text verbatim. */
  function WithField(t: Transaction, field: EditField, value: string): Transaction {
    match field
    case DateField => t.(date := value)
    case TypeField => t.(kind := value)
    case CategoryField => t.(category := value)
    case SubcategoryField => t.(subcategory := value)
    case ItemField => t.(item := value)
    case AmountField => t.(amount := SanitizeAmount(value))
    case MemoField => t.(memo := value)
  }

  /** A change never touches the id, and touches no field but its own. */
  lemma WithFieldKeepsOthers(t: Transaction, field: EditField, value: string)
    ensures WithField(t, field, value).id == t.id
    ensures field != AmountField ==> WithField(t, field, value).amount == t.amount
    ensures field != TypeField ==> WithField(t, field, value).kind == t.kind
    ensures field != DateField ==> WithField(t, field, value).date == t.date
    ensures field != MemoField ==> WithField(t, field, value).memo == t.memo
    ensures field != CategoryField ==> WithField(t, field, value).category == t.category
    ensures field != SubcategoryField ==> WithField(t, field, value).subcategory == t.subcategory
    ensures field != ItemField ==> WithField(t, field, value).item == t.item
  {
  }

  /** The amount input shows the locale string of the amount; leaving it as shown gives back the amount. */
  lemma EditAmountShown(n: nat)
    ensures SanitizeAmount(LocaleString(n)) == n
  {
    RemoveCommasLocaleString(n);
  }

  /** Typing a digit after the shown amount appends that digit to the number. */
  lemma EditAmountTyped(n: nat, c: char)
    requires IsDigit(c)
    ensures SanitizeAmount(LocaleString(n) + [c]) == 10 * n + DigitValue(c)
  {
    var s := NatToString(n);
    KeepDigitsAppend(LocaleString(n), [c]);
    RemoveCommasLocaleString(n);
    assert KeepDigits([c]) == [c];
    assert (s + [c])[..|s|] == s;
  }

  /** Typing anything but a digit leaves the number as it was. */
  lemma EditAmountOtherChar(n: nat, c: char)
    requires !IsDigit(c)
    ensures SanitizeAmount(LocaleString(n) + [c]) == n
  {
    KeepDigitsAppend(LocaleString(n), [c]);
    RemoveCommasLocaleString(n);
    assert KeepDigits([c]) == [];
    assert NatToString(n) + [] == NatToString(n);
  }

  /** A negative amount loses its sign once its input is edited: the minus sign is not a digit. */
  lemma EditAmountDropsSign(n: int)
    ensures SanitizeAmount(IntLocaleString(n)) == (if n < 0 then -n else n)
  {
    if n < 0 {
      var m: nat := -n;
      assert IntLocaleString(n) == "-" + LocaleString(m);
      KeepDigitsAppend("-", LocaleString(m));
      assert KeepDigits("-") == [] by { assert "-"[1..] == []; }
      RemoveCommasLocaleString(m);
      assert KeepDigits(IntLocaleString(n)) == NatToString(m) by {
        assert [] + NatToString(m) == NatToString(m);
      }
    } else {
      RemoveCommasLocaleString(n);
    }
  }

  class TransactionTableState {
    var editingId: Option<int>
    var editingData: Option<Transaction>
    var showDeleteModal: bool
    var selected: Option<Transaction>

    /** A row is being edited exactly when there is a buffer, and the buffer is that row's. */
    ghost predicate Valid()
      reads this
    {
      && (editingId.Some? <==> editingData.Some?)
      && (editingData.Some? ==> editingData.value.id == editingId.value)
    }

    constructor ()
      ensures Valid()
      ensures editingId.None? && editingData.None? && !showDeleteModal && selected.None?
    {
      editingId := None;
      editingData := None;
      showDeleteModal := false;
      selected := None;
    }

    /** `handleEdit`: the row's id and a copy of it become the edit buffer. */
    method HandleEdit(t: Transaction)
      modifies this
      ensures Valid()
      ensures editingId == Some(t.id) && editingData == Some(t)
      ensures showDeleteModal == old(showDeleteModal) && selected == old(selected)
    {
      editingId := Some(t.id);
      editingData := Some(t);
    }

    /** `handleEditChange`: without a buffer nothing happens; otherwise one field of the buffer changes. */
    method HandleEditChange(field: EditField, value: string)
      requires Valid()
      modifies this
      ensures Valid()
      ensures old(editingData).None? ==> editingData.None?
      ensures old(editingData).Some? ==> editingData == Some(WithField(old(editingData).value, field, value))
      ensures editingId == old(editingId) && showDeleteModal == old(showDeleteModal) && selected == old(selected)
    {
      if editingData.None? {
        return;
      }
      editingData := Some(WithField(editingData.value, field, value));
    }

    /**
     * `handleEditSave`: when there is no buffer or the id is falsy (0)
     * nothing happens; otherwise `onUpdate(id, buffer)` is returned and
     * editing ends.
     */
    method HandleEditSave() returns (update: Option<(int, Transaction)>)
      requires Valid()
      modifies this
      ensures Valid()
      ensures old(editingData).None? || old(editingId) == Some(0) ==>
        update.None? && editingId == old(editingId) && editingData == old(editingData)
      ensures old(editingData).Some? && old(editingId) != Some(0) ==>
        && update == Some((old(editingId).value, old(editingData).value))
        && update.value.0 == update.value.1.id
        && editingId.None? && editingData.None?
      ensures showDeleteModal == old(showDeleteModal) && selected == old(selected)
    {
      if editingData.None? || editingId.None? || editingId.value == 0 {
        return None;
      }
      update := Some((editingId.value, editingData.value));
      editingId := None;
      editingData := None;
    }

    /** `handleEditCancel`: editing ends and the buffer is dropped. */
    method HandleEditCancel()
      modifies this
      ensures Valid()
      ensures editingId.None? && editingData.None?
      ensures showDeleteModal == old(showDeleteModal) && selected == old(selected)
    {
      editingId := None;
      editingData := None;
    }

    /** `handleDelete`: the row is selected and the dialog opens. */
    method HandleDelete(t: Transaction)
      modifies this
      ensures selected == Some(t) && showDeleteModal
      ensures editingId == old(editingId) && editingData == old(editingData)
    {
      selected := Some(t);
      showDeleteModal := true;
    }

    /** `confirmDelete`: with a selection, `onDelete(id)` is returned and the dialog closes; without one nothing happens. */
    method ConfirmDelete() returns (deleted: Option<int>)
      modifies this
      ensures old(selected).None? ==> deleted.None? && showDeleteModal == old(showDeleteModal) && selected.None?
      ensures old(selected).Some? ==> deleted == Some(old(selected).value.id) && !showDeleteModal && selected.None?
      ensures editingId == old(editingId) && editingData == old(editingData)
    {
      if selected.None? {
        return None;
      }
      deleted := Some(selected.value.id);
      showDeleteModal := false;
      selected := None;
    }

    /** The dialog's cancel button: the dialog closes but the selection stays. */
    method CloseDeleteModal()
      modifies this
      ensures !showDeleteModal && selected == old(selected)
      ensures editingId == old(editingId) && editingData == old(editingData)
    {
      showDeleteModal := false;
    }
  }
}
