/**
 * The new-transaction form (src/components/transaction/TransactionForm.tsx):
 * the amount input keeps only digits and shows them grouped in thousands,
 * and submitting removes the grouping again, checks the required fields,
 * hands the transaction to `onSave` and resets the form. Today's date,
 * which the source reads from the clock, is a parameter.
 */
module TransactionForm {
  import opened Wrappers
  import opened Text
  import opened Types

  /** `formData`: every input as text. */
  datatype FormData = FormData(date: string, amount: string, category: string, subcategory: string, item: string, memo: string)

  /** The `name` of the input a change comes from. */
  datatype Field = DateField | AmountField | CategoryField | SubcategoryField | ItemField | MemoField

  /** The form as it starts and as a submit leaves it: today's date and every other field empty. */
  function BlankForm(today: string): FormData {
    FormData(today, "", "", "", "", "")
  }

  /** The amount input's `handleChange`: the digits typed, or "" when there are none, otherwise their value grouped in thousands. */
  function FormatAmount(v: string): (r: string)
    ensures r == "" <==> KeepDigits(v) == ""
  {
    var d := KeepDigits(v);
    if d == "" then "" else LocaleString(DigitsValue(d))
  }

  /** `Number(s)` on a string without commas: the value of a digit string (0 for ""), None (NaN) for anything else. */
  function ToNumber(s: string): Option<nat> {
    if AllDigits(s) then Some(DigitsValue(s)) else None
  }

  /** The amount `handleSubmit` computes: `Number(formData.amount.replace(/,/g, ''))`. */
  function SubmittedAmount(f: FormData): Option<nat> {
    ToNumber(RemoveCommas(f.amount))
  }

  /** The submit check: a non-zero number and non-empty category, subcategory and item. Date and memo are not checked. */
  predicate Accepts(f: FormData) {
    var a := SubmittedAmount(f);
    a.Some? && a.value != 0 && f.category != "" && f.subcategory != "" && f.item != ""
  }

  /** What a change to one input does to the form. */
  function Changed(f: FormData, field: Field, value: string): FormData {
    match field
    case DateField => f.(date := value)
    case AmountField => f.(amount := FormatAmount(value))
    case CategoryField => f.(category := value)
    case SubcategoryField => f.(subcategory := value)
    case ItemField => f.(item := value)
    case MemoField => f.(memo := value)
  }

  /** Formatting what is already formatted changes nothing. */
  lemma FormatAmountIdempotent(v: string)
    ensures FormatAmount(FormatAmount(v)) == FormatAmount(v)
  {
    var d := KeepDigits(v);
    if d != "" {
      var n := DigitsValue(d);
      RemoveCommasLocaleString(n);
    }
  }

  /** Leading zeros are dropped: typing zeros before some digits gives the same text as the digits alone. */
  lemma FormatDropsLeadingZeros(z: string, v: string)
    requires AllZeros(z) && KeepDigits(v) != ""
    ensures FormatAmount(z + v) == FormatAmount(v)
  {
    assert AllDigits(z);
    KeepDigitsAppend(z, v);
    KeepDigitsOfDigits(z);
    DigitsValueLeadingZeros(z, KeepDigits(v));
  }

  /** The shown amount of a whole number n is its locale string, and the input keeps it as it is. */
  lemma FormatOfLocaleString(n: nat)
    ensures FormatAmount(LocaleString(n)) == LocaleString(n)
  {
    RemoveCommasLocaleString(n);
  }

  /**
   * The format/parse round trip: removing the commas from the formatted
   * text and converting gives the value of the digits typed (0 when none).
   */
  lemma AmountRoundTrip(v: string)
    ensures ToNumber(RemoveCommas(FormatAmount(v))) == Some(if KeepDigits(v) == "" then 0 else DigitsValue(KeepDigits(v)))
  {
    var d := KeepDigits(v);
    if d == "" {
      RemoveCommasNoCommas("");
    } else {
      RemoveCommasLocaleString(DigitsValue(d));
    }
  }

  /**
   * An amount field that the input produced always converts to a number,
   * and a non-empty one is exactly the locale string of that number.
   */
  lemma ShownAmountConverts(s: string)
    requires FormatAmount(s) == s
    ensures ToNumber(RemoveCommas(s)).Some?
    ensures s != "" ==> LocaleString(ToNumber(RemoveCommas(s)).value) == s
  {
    AmountRoundTrip(s);
    if KeepDigits(s) != "" {
      RemoveCommasLocaleString(DigitsValue(KeepDigits(s)));
    }
  }

  /** With an amount field the input produced, submit rejects on the amount exactly when it converts to 0. */
  lemma AcceptsShown(f: FormData)
    requires FormatAmount(f.amount) == f.amount
    ensures Accepts(f) <==>
      SubmittedAmount(f) != Some(0) && f.category != "" && f.subcategory != "" && f.item != ""
  {
    ShownAmountConverts(f.amount);
  }

  class TransactionFormState {
    var form: FormData

    /** The amount field only ever holds what the amount input produces. */
    ghost predicate Valid()
      reads this
    {
      FormatAmount(form.amount) == form.amount
    }

    constructor (today: string)
      ensures Valid() && form == BlankForm(today)
    {
      form := BlankForm(today);
    }

    /** `handleChange`: the amount input is formatted, every other input is stored verbatim. */
    method HandleChange(field: Field, value: string)
      requires Valid()
      modifies this
      ensures Valid() && form == Changed(old(form), field, value)
    {
      if field == AmountField {
        FormatAmountIdempotent(value);
        form := form.(amount := FormatAmount(value));
      } else {
        form := Changed(form, field, value);
      }
    }

    /**
     * `handleSubmit`: when the check fails nothing is saved and the form
     * stays; otherwise the transaction with the prop `type` and the current
     * fields is handed to `onSave` (returned here) and the form is reset.
     */
    method HandleSubmit(kind: CategoryType, today: string) returns (saved: Option<NewTransaction>)
      requires Valid()
      modifies this
      ensures Valid()
      ensures !Accepts(old(form)) ==> saved.None? && form == old(form)
      ensures Accepts(old(form)) ==>
        && saved == Some(NewTransaction(None, SubmittedAmount(old(form)).value, kind, old(form).date,
                                        old(form).category, old(form).subcategory, old(form).item, old(form).memo))
        && form == BlankForm(today)
    {
      var amount := ToNumber(RemoveCommas(form.amount));
      if amount.None? || amount.value == 0 || form.category == "" || form.subcategory == "" || form.item == "" {
        return None;
      }
      saved := Some(NewTransaction(None, amount.value, kind, form.date, form.category, form.subcategory, form.item, form.memo));
      form := BlankForm(today);
    }
  }
}
