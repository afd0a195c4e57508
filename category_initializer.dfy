/**
 * Default category seeding (src/utils/categoryInitializer.ts): the 42 raw
 * defaults, their mapping to Category records, and `initializeCategories`,
 * which writes them only into an empty store.
 */
module CategoryInitializer {
  import opened Wrappers
  import opened Types
  import opened IndexedDb

  /** A raw default: its `type` label (수입 or 지출) and its three names. */
  datatype RawCategory = RawCategory(kind: string, section: string, category: string, subcategory: string)

  /** The defaults under 관 경상수입 (regular income). */
  const RegularIncome: seq<RawCategory> := [
    RawCategory("수입", "경상수입", "급여", "월급"),
    RawCategory("수입", "경상수입", "급여", "상여금"),
    RawCategory("수입", "경상수입", "급여", "수당"),
    RawCategory("수입", "경상수입", "사업수입", "매출액"),
    RawCategory("수입", "경상수입", "사업수입", "수수료"),
    RawCategory("수입", "경상수입", "금융수입", "이자수입"),
    RawCategory("수입", "경상수입", "금융수입", "배당금"),
    RawCategory("수입", "경상수입", "임대수입", "월세"),
    RawCategory("수입", "경상수입", "임대수입", "전세")
  ]
  /** The defaults under 관 기타수입 (other income). */
  const OtherIncome: seq<RawCategory> := [
    RawCategory("수입", "기타수입", "기타", "용돈"),
    RawCategory("수입", "기타수입", "기타", "상금"),
    RawCategory("수입", "기타수입", "기타", "환급금")
  ]
  /** The defaults under 관 고정지출 (fixed expenses). */
  const FixedExpense: seq<RawCategory> := [
    RawCategory("지출", "고정지출", "주거비", "월세"),
    RawCategory("지출", "고정지출", "주거비", "관리비"),
    RawCategory("지출", "고정지출", "주거비", "공과금"),
    RawCategory("지출", "고정지출", "통신비", "휴대폰"),
    RawCategory("지출", "고정지출", "통신비", "인터넷"),
    RawCategory("지출", "고정지출", "보험료", "생명보험"),
    RawCategory("지출", "고정지출", "보험료", "실손보험"),
    RawCategory("지출", "고정지출", "보험료", "자동차보험")
  ]
  /** The defaults under 관 생활비 (living costs). */
  const LivingExpense: seq<RawCategory> := [
    RawCategory("지출", "생활비", "식비", "식사"),
    RawCategory("지출", "생활비", "식비", "간식"),
    RawCategory("지출", "생활비", "식비", "커피/음료"),
    RawCategory("지출", "생활비", "교통비", "대중교통"),
    RawCategory("지출", "생활비", "교통비", "주유비"),
    RawCategory("지출", "생활비", "교통비", "주차비"),
    RawCategory("지출", "생활비", "생필품", "세면도구"),
    RawCategory("지출", "생활비", "생필품", "청소용품")
  ]
  /** The defaults under 관 문화생활 (leisure). */
  const CultureExpense: seq<RawCategory> := [
    RawCategory("지출", "문화생활", "여가", "영화/공연"),
    RawCategory("지출", "문화생활", "여가", "취미"),
    RawCategory("지출", "문화생활", "여가", "운동"),
    RawCategory("지출", "문화생활", "쇼핑", "의류"),
    RawCategory("지출", "문화생활", "쇼핑", "잡화"),
    RawCategory("지출", "문화생활", "쇼핑", "전자기기")
  ]
  /** The defaults under 관 교육비 (education). */
  const EducationExpense: seq<RawCategory> := [
    RawCategory("지출", "교육비", "학습", "학원비"),
    RawCategory("지출", "교육비", "학습", "교재비"),
    RawCategory("지출", "교육비", "학습", "인강")
  ]
  /** The defaults under 관 의료비 (medical). */
  const MedicalExpense: seq<RawCategory> := [
    RawCategory("지출", "의료비", "병원", "진료비"),
    RawCategory("지출", "의료비", "병원", "약값"),
    RawCategory("지출", "의료비", "병원", "검사비")
  ]
  /** The defaults under 관 기타지출 (other expenses). */
  const OtherExpense: seq<RawCategory> := [
    RawCategory("지출", "기타지출", "기타", "경조사비"),
    RawCategory("지출", "기타지출", "기타", "회비")
  ]

  /** The twelve income defaults and the thirty expense defaults, in source order. */
  const IncomeDefaults: seq<RawCategory> := RegularIncome + OtherIncome
  const ExpenseDefaults: seq<RawCategory> :=
    FixedExpense + LivingExpense + CultureExpense + EducationExpense + MedicalExpense + OtherExpense
  /** `defaultCategories`: the income block, then the expense block. */
  const DefaultCategories: seq<RawCategory> := IncomeDefaults + ExpenseDefaults

  /** The mapping of one raw default at position `index`: 수입 is income, every other label expense; id and order are index + 1. */
  function ToCategory(raw: RawCategory, index: nat): Category {
    Category(index + 1, if raw.kind == "수입" then Income else Expense, raw.section, raw.category, raw.subcategory, index + 1)
  }

  /** `defaultCategories.map((raw, index) => …)`. */
  function ToCategories(raws: seq<RawCategory>): seq<Category> {
    seq(|raws|, i requires 0 <= i < |raws| => ToCategory(raws[i], i))
  }

  /**
   * The mapped list is as long as the raw list; entry i has id and order
   * i + 1, the income type exactly when its label is 수입, and the three names
   * copied verbatim; so the ids are distinct.
   */
  lemma ToCategoriesShape(raws: seq<RawCategory>)
    ensures |ToCategories(raws)| == |raws|
    ensures forall i :: 0 <= i < |raws| ==>
      var c := ToCategories(raws)[i];
      && c.id == i + 1 && c.order == c.id
      && (c.kind == Income <==> raws[i].kind == "수입")
      && c.section == raws[i].section && c.category == raws[i].category && c.subcategory == raws[i].subcategory
    ensures forall i, j :: 0 <= i < j < |raws| ==> ToCategories(raws)[i].id != ToCategories(raws)[j].id
  {
  }

  /** Whether no entry of `s` from position i on equals `x`. */
  predicate NotInFrom(x: RawCategory, s: seq<RawCategory>, i: nat)
    decreases |s| - i
  {
    i >= |s| || (x != s[i] && NotInFrom(x, s, i + 1))
  }

  /** Whether every entry of `s` from position i on has this label and section, and none of them repeats. */
  predicate SectionBlock(s: seq<RawCategory>, kind: string, section: string, i: nat)
    decreases |s| - i
  {
    i >= |s| || (s[i].kind == kind && s[i].section == section && NotInFrom(s[i], s, i + 1) && SectionBlock(s, kind, section, i + 1))
  }

  predicate Distinct(s: seq<RawCategory>) {
    forall i, j :: 0 <= i < j < |s| ==> s[i] != s[j]
  }

  lemma {:induction false} NotInFromMeans(x: RawCategory, s: seq<RawCategory>, i: nat)
    requires NotInFrom(x, s, i)
    ensures forall j :: i <= j < |s| ==> x != s[j]
    decreases |s| - i
  {
    if i < |s| {
      NotInFromMeans(x, s, i + 1);
    }
  }

  lemma {:induction false} SectionBlockMeans(s: seq<RawCategory>, kind: string, section: string, i: nat)
    requires SectionBlock(s, kind, section, i)
    ensures forall j :: i <= j < |s| ==> s[j].kind == kind && s[j].section == section
    ensures forall j, l :: i <= j < l < |s| ==> s[j] != s[l]
    decreases |s| - i
  {
    if i < |s| {
      NotInFromMeans(s[i], s, i + 1);
      SectionBlockMeans(s, kind, section, i + 1);
    }
  }

  predicate AllKind(s: seq<RawCategory>, kind: string) {
    forall i :: 0 <= i < |s| ==> s[i].kind == kind
  }

  predicate SectionsIn(s: seq<RawCategory>, sections: set<string>) {
    forall i :: 0 <= i < |s| ==> s[i].section in sections
  }

  /** What a checked block gives: one label, one section, no entry twice. */
  lemma BlockFacts(s: seq<RawCategory>, kind: string, section: string)
    requires SectionBlock(s, kind, section, 0)
    ensures AllKind(s, kind) && SectionsIn(s, {section}) && Distinct(s)
  {
    SectionBlockMeans(s, kind, section, 0);
  }

  /** Appending a block of the same label whose section is new keeps the entries distinct. */
  lemma JoinBlocks(a: seq<RawCategory>, b: seq<RawCategory>, kind: string, sections: set<string>, section: string)
    requires AllKind(a, kind) && SectionsIn(a, sections) && Distinct(a)
    requires AllKind(b, kind) && SectionsIn(b, {section}) && Distinct(b) && section !in sections
    ensures AllKind(a + b, kind) && SectionsIn(a + b, sections + {section}) && Distinct(a + b)
  {
    forall i, j | 0 <= i < j < |a + b| ensures (a + b)[i] != (a + b)[j] {
      if j >= |a| && i < |a| {
        assert (a + b)[i].section in sections && (a + b)[j] == b[j - |a|];
      }
    }
  }

  /** Two distinct lists with different labels join into a distinct list. */
  lemma JoinKinds(a: seq<RawCategory>, b: seq<RawCategory>, ka: string, kb: string)
    requires AllKind(a, ka) && Distinct(a) && AllKind(b, kb) && Distinct(b) && ka != kb
    ensures Distinct(a + b)
  {
    forall i, j | 0 <= i < j < |a + b| ensures (a + b)[i] != (a + b)[j] {
      if j >= |a| && i < |a| {
        assert (a + b)[i].kind == ka && (a + b)[j].kind == kb;
      }
    }
  }

  // Each block is checked on its own; the longer ones from the middle on first.
  lemma CheckRegularIncomeTail() ensures SectionBlock(RegularIncome, "수입", "경상수입", 4) {}
  lemma CheckRegularIncome() ensures SectionBlock(RegularIncome, "수입", "경상수입", 0) { CheckRegularIncomeTail(); }
  lemma CheckOtherIncome() ensures SectionBlock(OtherIncome, "수입", "기타수입", 0) {}
  lemma CheckFixedExpenseTail() ensures SectionBlock(FixedExpense, "지출", "고정지출", 4) {}
  lemma CheckFixedExpense() ensures SectionBlock(FixedExpense, "지출", "고정지출", 0) { CheckFixedExpenseTail(); }
  lemma CheckLivingExpenseTail() ensures SectionBlock(LivingExpense, "지출", "생활비", 4) {}
  lemma CheckLivingExpense() ensures SectionBlock(LivingExpense, "지출", "생활비", 0) { CheckLivingExpenseTail(); }
  lemma CheckCultureExpense() ensures SectionBlock(CultureExpense, "지출", "문화생활", 0) {}
  lemma CheckEducationExpense() ensures SectionBlock(EducationExpense, "지출", "교육비", 0) {}
  lemma CheckMedicalExpense() ensures SectionBlock(MedicalExpense, "지출", "의료비", 0) {}
  lemma CheckOtherExpense() ensures SectionBlock(OtherExpense, "지출", "기타지출", 0) {}

  /** The income block: twelve entries, all 수입, none twice. */
  lemma IncomeFacts()
    ensures |IncomeDefaults| == 12 && AllKind(IncomeDefaults, "수입") && Distinct(IncomeDefaults)
  {
    CheckRegularIncome();
    BlockFacts(RegularIncome, "수입", "경상수입");
    CheckOtherIncome();
    BlockFacts(OtherIncome, "수입", "기타수입");
    JoinBlocks(RegularIncome, OtherIncome, "수입", {"경상수입"}, "기타수입");
  }

  /** The expense block: thirty entries, all 지출, none twice. */
  lemma ExpenseFacts()
    ensures |ExpenseDefaults| == 30 && AllKind(ExpenseDefaults, "지출") && Distinct(ExpenseDefaults)
  {
    CheckFixedExpense();
    BlockFacts(FixedExpense, "지출", "고정지출");
    CheckLivingExpense();
    BlockFacts(LivingExpense, "지출", "생활비");
    JoinBlocks(FixedExpense, LivingExpense, "지출", {"고정지출"}, "생활비");
    var acc := FixedExpense + LivingExpense;
    CheckCultureExpense();
    BlockFacts(CultureExpense, "지출", "문화생활");
    JoinBlocks(acc, CultureExpense, "지출", {"고정지출", "생활비"}, "문화생활");
    acc := acc + CultureExpense;
    CheckEducationExpense();
    BlockFacts(EducationExpense, "지출", "교육비");
    JoinBlocks(acc, EducationExpense, "지출", {"고정지출", "생활비", "문화생활"}, "교육비");
    acc := acc + EducationExpense;
    CheckMedicalExpense();
    BlockFacts(MedicalExpense, "지출", "의료비");
    JoinBlocks(acc, MedicalExpense, "지출", {"고정지출", "생활비", "문화생활", "교육비"}, "의료비");
    acc := acc + MedicalExpense;
    CheckOtherExpense();
    BlockFacts(OtherExpense, "지출", "기타지출");
    JoinBlocks(acc, OtherExpense, "지출", {"고정지출", "생활비", "문화생활", "교육비", "의료비"}, "기타지출");
  }

  /** Every income default is labelled 수입 and every expense default 지출. */
  lemma BlockLabels()
    ensures |IncomeDefaults| == 12 && |ExpenseDefaults| == 30
    ensures forall i :: 0 <= i < |IncomeDefaults| ==> IncomeDefaults[i].kind == "수입"
    ensures forall i :: 0 <= i < |ExpenseDefaults| ==> ExpenseDefaults[i].kind == "지출"
  {
    IncomeFacts();
    ExpenseFacts();
  }

  /** There are 42 defaults, the first twelve 수입 and the other thirty 지출: income orders are 1..12 and expense orders 13..42. */
  lemma DefaultsIncomeFirst()
    ensures |DefaultCategories| == 42
    ensures forall i :: 0 <= i < 42 ==> (DefaultCategories[i].kind == "수입" <==> i < 12)
    ensures forall i :: 0 <= i < 42 ==> DefaultCategories[i].kind in {"수입", "지출"}
    ensures forall i :: 0 <= i < 42 ==>
      (ToCategories(DefaultCategories)[i].kind == Income <==> 1 <= ToCategories(DefaultCategories)[i].order <= 12)
  {
    BlockLabels();
    forall i | 0 <= i < 42 ensures DefaultCategories[i].kind == if i < 12 then "수입" else "지출" {
      if i < 12 {
        assert DefaultCategories[i] == IncomeDefaults[i];
      } else {
        assert DefaultCategories[i] == ExpenseDefaults[i - 12];
      }
    }
    ToCategoriesShape(DefaultCategories);
  }

  /** No two defaults share type, section, category and subcategory. */
  lemma DefaultsDistinct()
    ensures forall i, j :: 0 <= i < j < |DefaultCategories| ==> DefaultCategories[i] != DefaultCategories[j]
  {
    IncomeFacts();
    ExpenseFacts();
    JoinKinds(IncomeDefaults, ExpenseDefaults, "수입", "지출");
  }

  /** The record a Category becomes in the store: its number id as key, its type as the enum's string value. */
  function AsRecord(c: Category): Record {
    Record(Some(NumKey(c.id)), c.kind.Label(), c.section, c.category, c.subcategory, Some(c.order))
  }

  /** The store records of a mapped list. */
  function RecordsOf(raws: seq<RawCategory>): seq<Record> {
    seq(|raws|, i requires 0 <= i < |raws| => AsRecord(ToCategories(raws)[i]))
  }

  /** The default records handed to `replaceAllCategories`. */
  function DefaultRecords(): seq<Record> {
    RecordsOf(DefaultCategories)
  }

  lemma DefaultsCount()
    ensures |DefaultCategories| == 42
  {
  }

  /** Putting rows numbered 1, 2, … into an empty store leaves exactly those rows, row i under key i + 1. */
  lemma PutAllNumbered(current: int, rows: seq<Record>)
    requires forall i :: 0 <= i < |rows| ==> rows[i].id == Some(NumKey(i + 1))
    ensures PutAll(Store(map[], current), rows).Success?
    ensures var recs := PutAll(Store(map[], current), rows).value.records;
      && (forall k :: k in recs <==> k.NumKey? && 1 <= k.n <= |rows|)
      && forall i :: 0 <= i < |rows| ==> recs[NumKey(i + 1)] == rows[i]
  {
    PutAllDistinctIds(Store(map[], current), rows);
    var recs := PutAll(Store(map[], current), rows).value.records;
    forall k | k in recs ensures k.NumKey? && 1 <= k.n <= |rows| {
      var i :| 0 <= i < |rows| && rows[i].id == Some(k);
    }
    forall k: Key | k.NumKey? && 1 <= k.n <= |rows| ensures k in recs {
      assert rows[k.n - 1].id == Some(k);
    }
  }

  /** Putting the records of any mapped list into an emptied store leaves exactly them, entry i under key i + 1. */
  lemma ReplaceWithRecords(current: int, raws: seq<RawCategory>)
    ensures PutAll(Store(map[], current), RecordsOf(raws)).Success?
    ensures var recs := PutAll(Store(map[], current), RecordsOf(raws)).value.records;
      && (forall k :: k in recs <==> k.NumKey? && 1 <= k.n <= |raws|)
      && forall i :: 0 <= i < |raws| ==> recs[NumKey(i + 1)] == AsRecord(ToCategory(raws[i], i))
  {
    var rows := RecordsOf(raws);
    assert forall i :: 0 <= i < |rows| ==> rows[i] == AsRecord(ToCategory(raws[i], i));
    PutAllNumbered(current, rows);
  }

  /**
   * Clearing any store and putting the default records one by one never
   * fails, and leaves exactly the 42 defaults, default i under key i + 1.
   */
  lemma ReplaceWithDefaults(current: int)
    ensures PutAll(Store(map[], current), DefaultRecords()).Success?
    ensures var recs := PutAll(Store(map[], current), DefaultRecords()).value.records;
      && (forall k :: k in recs <==> k.NumKey? && 1 <= k.n <= 42)
      && forall i :: 0 <= i < 42 ==> recs[NumKey(i + 1)] == AsRecord(ToCategory(DefaultCategories[i], i))
  {
    DefaultsCount();
    ReplaceWithRecords(current, DefaultCategories);
  }

  /** What `initializeCategories` rethrows: an error of the database, or a TypeError for calling a missing method. */
  datatype InitError = Db(e: DbError) | NotAFunction(name: string)

  /**
   * `initializeCategories` as written: read every category; an error from
   * reading is rethrown; a non-empty store is left as it is. For an empty
   * store the call `categoryDB.replaceAllCategories(categories)` evaluates a
   * property CategoryDB does not have, so it throws a TypeError, which the
   * catch rethrows, and nothing is written.
   */
  method InitializeCategoriesAsWritten(db: CategoryDB, openFails: bool) returns (r: Outcome<InitError>)
    requires db.Valid()
    modifies db
    ensures db.Valid()
    ensures var pre := Connected(old(db.disk), old(db.connected), openFails);
      && (pre.Failure? ==> r == Fail(Db(pre.error)) && db.disk == old(db.disk))
      && (pre.Success? && !pre.value.hasStore ==> r == Fail(Db(NotFoundError)) && db.disk == pre.value)
      && (pre.Success? && pre.value.hasStore && |pre.value.store.records| > 0 ==> r == Pass && db.disk == pre.value)
      && (pre.Success? && pre.value.hasStore && |pre.value.store.records| == 0 ==>
            r == Fail(NotAFunction("replaceAllCategories")) && db.disk == pre.value)
  {
    var existing := db.GetAllCategories(openFails);
    if existing.Failure? {
      return Fail(Db(existing.error));
    }
    InKeyOrderEmpty(existing.value, db.disk.store.records);
    if |existing.value| == 0 {
      r := Fail(NotAFunction("replaceAllCategories"));
    } else {
      r := Pass;
    }
  }

  /**
   * `initializeCategories` with the replace it evidently intends (see
   * `CategoryDB.ReplaceAllCategories`): read errors are passed on; a
   * non-empty store is left as it is; an empty one is filled with the 42
   * defaults, unless the replacing transaction aborts, whose error is
   * passed on with the store left empty.
   */
  method InitializeCategories(db: CategoryDB, openFails: bool, abort: Option<DbError>) returns (r: Outcome<DbError>)
    requires db.Valid()
    modifies db
    ensures db.Valid()
    ensures var pre := Connected(old(db.disk), old(db.connected), openFails);
      && (pre.Failure? ==> r == Fail(pre.error) && db.disk == old(db.disk))
      && (pre.Success? && !pre.value.hasStore ==> r == Fail(NotFoundError) && db.disk == pre.value)
      && (pre.Success? && pre.value.hasStore && |pre.value.store.records| > 0 ==> r == Pass && db.disk == pre.value)
      && (pre.Success? && pre.value.hasStore && |pre.value.store.records| == 0 && abort.Some? ==>
            r == Fail(abort.value) && db.disk == pre.value)
      && (pre.Success? && pre.value.hasStore && |pre.value.store.records| == 0 && abort.None? ==>
            && r == Pass && db.disk.hasStore && db.disk.version == pre.value.version
            && (forall k :: k in db.disk.store.records <==> k.NumKey? && 1 <= k.n <= 42)
            && forall i :: 0 <= i < 42 ==>
                 db.disk.store.records[NumKey(i + 1)] == AsRecord(ToCategory(DefaultCategories[i], i)))
  {
    var existing := db.GetAllCategories(openFails);
    if existing.Failure? {
      return Fail(existing.error);
    }
    InKeyOrderEmpty(existing.value, db.disk.store.records);
    if |existing.value| == 0 {
      ReplaceWithDefaults(db.disk.store.current);
      r := db.ReplaceAllCategories(DefaultRecords(), openFails, abort);
    } else {
      r := Pass;
    }
  }
}
