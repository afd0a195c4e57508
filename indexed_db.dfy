/**
 * The category object store (src/utils/indexedDB.ts): class CategoryDB with
 * its nullable connection, the lazy `ensureConnection`, the one-time seeding
 * inside `onupgradeneeded`, and add / put / delete / getAll on the
 * `categories` store, following the W3C Indexed Database API 3.0:
 * section 2.7 (key order), section 2.11 (key generators) and section 5.1
 * (the object store storage operation, with its no-overwrite flag).
 *
 * Every request is one atomic step. A request that fails aborts its
 * transaction (no handler calls preventDefault), and an aborted transaction
 * reverts both the records and the key generator's current number
 * (section 2.11), so a failed request leaves the store as it was.
 */
module IndexedDb {
  import opened Wrappers

  // ---------------------------------------------------------------- keys

  /** A key of the `categories` store: a number (generated or explicit) or a string (a UUID). */
  datatype Key = NumKey(n: int) | StrKey(s: string)

  /** Code-unit order on strings (section 2.7): a proper prefix sorts first. */
  predicate StringLess(a: string, b: string)
    decreases |a|
  {
    if a == [] then b != []
    else if b == [] then false
    else if a[0] != b[0] then a[0] < b[0]
    else StringLess(a[1..], b[1..])
  }

  /** Section 2.7, comparing two keys: numbers by value, every number before every string, strings by code units. */
  predicate KeyLess(a: Key, b: Key) {
    match (a, b)
    case (NumKey(x), NumKey(y)) => x < y
    case (NumKey(_), StrKey(_)) => true
    case (StrKey(_), NumKey(_)) => false
    case (StrKey(x), StrKey(y)) => StringLess(x, y)
  }

  lemma {:induction false} StringLessIrreflexive(a: string)
    ensures !StringLess(a, a)
    decreases |a|
  {
    if a != [] {
      StringLessIrreflexive(a[1..]);
    }
  }

  lemma {:induction false} StringLessTransitive(a: string, b: string, c: string)
    requires StringLess(a, b) && StringLess(b, c)
    ensures StringLess(a, c)
    decreases |a|
  {
    if a != [] && a[0] == b[0] && b[0] == c[0] {
      StringLessTransitive(a[1..], b[1..], c[1..]);
    }
  }

  lemma {:induction false} StringLessTotal(a: string, b: string)
    requires a != b
    ensures StringLess(a, b) || StringLess(b, a)
    decreases |a|
  {
    if a != [] && b != [] && a[0] == b[0] {
      assert a == [a[0]] + a[1..] && b == [b[0]] + b[1..];
      StringLessTotal(a[1..], b[1..]);
    }
  }

  /** Key order is a strict total order. */
  lemma KeyOrder(a: Key, b: Key, c: Key)
    ensures !KeyLess(a, a)
    ensures KeyLess(a, b) && KeyLess(b, c) ==> KeyLess(a, c)
    ensures a != b ==> KeyLess(a, b) || KeyLess(b, a)
  {
    if a.StrKey? {
      StringLessIrreflexive(a.s);
    }
    if KeyLess(a, b) && KeyLess(b, c) && a.StrKey? && c.StrKey? {
      StringLessTransitive(a.s, b.s, c.s);
    }
    if a != b && a.StrKey? && b.StrKey? {
      StringLessTotal(a.s, b.s);
    }
  }

  /** Every non-empty set of keys has a least element. */
  lemma {:induction false} HasLeast(keys: set<Key>)
    requires keys != {}
    ensures exists m :: m in keys && forall k :: k in keys ==> m == k || KeyLess(m, k)
    decreases |keys|
  {
    var x :| x in keys;
    if keys != {x} {
      var rest := keys - {x};
      HasLeast(rest);
      var m :| m in rest && forall k :: k in rest ==> m == k || KeyLess(m, k);
      if KeyLess(m, x) {
        forall k | k in keys ensures m == k || KeyLess(m, k) {
          KeyOrder(m, k, x);
        }
      } else {
        KeyOrder(x, m, x);
        forall k | k in keys ensures x == k || KeyLess(x, k) {
          KeyOrder(x, m, k);
        }
      }
    }
  }

  // ---------------------------------------------------------------- records and the key generator

  /**
   * A stored category object. `id` is the in-line key at key path `id`
   * (missing before a key is generated); `order` is missing on the seeded
   * rows and on rows written by the category table.
   */
  datatype Record = Record(
    id: Option<Key>,
    kind: string,
    section: string,
    category: string,
    subcategory: string,
    order: Option<int>)

  /** An object store with a key generator: its records by key and the generator's current number. */
  datatype Store = Store(records: map<Key, Record>, current: int)

  /** 2^53, the largest key a key generator hands out (section 2.11). */
  const KeyLimit: int := 9007199254740992

  /** The empty store `createObjectStore` makes: no records, current number 1. */
  const EmptyStore: Store := Store(map[], 1)

  /**
   * What holds between requests: the generator has started at 1, every record
   * carries its own key in `id`, and no numeric key has reached the current
   * number unless the generator has passed 2^53.
   */
  predicate StoreValid(s: Store) {
    && s.current >= 1
    && forall k :: k in s.records ==>
         s.records[k].id == Some(k) && (k.NumKey? ==> k.n < s.current || s.current > KeyLimit)
  }

  /** Section 2.11, "possibly update the key generator": an explicit number at or above the current number moves it past. */
  function PossiblyUpdate(current: int, key: Key): int {
    if key.NumKey? then
      var v := if key.n < KeyLimit then key.n else KeyLimit;
      if v >= current then v + 1 else current
    else current
  }

  /**
   * The errors the model distinguishes: ConstraintError, NotFoundError,
   * VersionError, a failed open, and a transaction that aborted before it
   * committed (AbortError, QuotaExceededError and the like).
   */
  datatype DbError = ConstraintError | NotFoundError | VersionError | OpenFailed | AbortError

  /**
   * Section 5.1, the storage operation for a store with in-line keys and a key
   * generator: generate a key when the value has none (failing once the
   * generator has passed 2^53) and inject it, otherwise possibly update the
   * generator; with the no-overwrite flag an existing key is a
   * ConstraintError; otherwise the record is stored, replacing any old one.
   */
  function StoreRecord(s: Store, value: Record, noOverwrite: bool): Result<(Store, Key), DbError> {
    if value.id.None? then
      if s.current > KeyLimit then Failure(ConstraintError)
      else
        var key := NumKey(s.current);
        Commit(s.records, s.current + 1, value.(id := Some(key)), key, noOverwrite)
    else
      var key := value.id.value;
      Commit(s.records, PossiblyUpdate(s.current, key), value, key, noOverwrite)
  }

  function Commit(records: map<Key, Record>, current: int, value: Record, key: Key, noOverwrite: bool): Result<(Store, Key), DbError> {
    if noOverwrite && key in records then Failure(ConstraintError)
    else Success((Store(records[key := value], current), key))
  }

  /** A successful storage operation keeps the store invariant. */
  lemma StoreRecordKeepsValid(s: Store, value: Record, noOverwrite: bool)
    requires StoreValid(s) && StoreRecord(s, value, noOverwrite).Success?
    ensures StoreValid(StoreRecord(s, value, noOverwrite).value.0)
  {
  }

  /**
   * `add` of a value without `id` on a valid store: it succeeds while the
   * generator has not passed 2^53, under the generated key, which was not in
   * use; the record count grows by one and no other record changes.
   */
  lemma AddGeneratesFreshKey(s: Store, value: Record)
    requires StoreValid(s) && value.id.None?
    ensures s.current <= KeyLimit <==> StoreRecord(s, value, true).Success?
    ensures s.current <= KeyLimit ==>
      var key := NumKey(s.current);
      && key !in s.records
      && StoreRecord(s, value, true) == Success((Store(s.records[key := value.(id := Some(key))], s.current + 1), key))
      && |StoreRecord(s, value, true).value.0.records| == |s.records| + 1
  {
  }

  /** `add` of a value whose `id` is already a key fails with ConstraintError (the no-overwrite flag). */
  lemma AddExistingKeyFails(s: Store, value: Record)
    requires value.id.Some? && value.id.value in s.records
    ensures StoreRecord(s, value, true) == Failure(ConstraintError)
  {
  }

  /** A successful `add` inserts under a key that was not in use, so the count grows by one and other records are kept. */
  lemma AddInsertsOne(s: Store, value: Record)
    requires StoreRecord(s, value, true).Success?
    ensures var (t, key) := StoreRecord(s, value, true).value;
      && key !in s.records
      && t.records == s.records[key := t.records[key]]
      && |t.records| == |s.records| + 1
  {
  }

  /** `put` of a value with an `id` always succeeds and stores it at that key, leaving every other key as it was. */
  lemma PutStoresAtId(s: Store, value: Record)
    requires value.id.Some?
    ensures StoreRecord(s, value, false).Success?
    ensures StoreRecord(s, value, false).value.1 == value.id.value
    ensures StoreRecord(s, value, false).value.0.records == s.records[value.id.value := value]
  {
  }

  /** Storing under an explicit numeric key moves the generator past it, so a later generated key differs from it. */
  lemma ExplicitKeyBumpsGenerator(s: Store, value: Record, noOverwrite: bool)
    requires value.id.Some? && value.id.value.NumKey? && StoreRecord(s, value, noOverwrite).Success?
    ensures var t := StoreRecord(s, value, noOverwrite).value.0;
      t.current >= s.current && (t.current <= KeyLimit ==> value.id.value.n < t.current)
  {
  }

  // ---------------------------------------------------------------- getAll

  /** `getAll` over a store: every record once, in ascending key order. */
  predicate InKeyOrder(rs: seq<Record>, records: map<Key, Record>) {
    && (forall i :: 0 <= i < |rs| ==> rs[i].id.Some? && rs[i].id.value in records && records[rs[i].id.value] == rs[i])
    && (forall i, j :: 0 <= i < j < |rs| ==> rs[i].id.Some? && rs[j].id.Some? && KeyLess(rs[i].id.value, rs[j].id.value))
    && (forall k :: k in records ==> exists i :: 0 <= i < |rs| && rs[i].id == Some(k))
  }

  /** The keys of a set in ascending order, each once: the cursor order `getAll` follows. */
  method SortedKeys(keys: set<Key>) returns (r: seq<Key>)
    ensures forall k :: k in r <==> k in keys
    ensures forall i, j :: 0 <= i < j < |r| ==> KeyLess(r[i], r[j])
  {
    r := [];
    var rest := keys;
    while rest != {}
      invariant SortingState(keys, r, rest)
      decreases |rest|
    {
      HasLeast(rest);
      var m :| m in rest && forall k :: k in rest ==> m == k || KeyLess(m, k);
      SortingStep(keys, r, rest, m);
      r := r + [m];
      rest := rest - {m};
    }
  }

  /** Part way through SortedKeys: `r` holds the keys already taken, ascending, each below every key still in `rest`. */
  ghost predicate SortingState(keys: set<Key>, r: seq<Key>, rest: set<Key>) {
    && rest <= keys
    && (forall k :: k in keys ==> (k in r <==> k !in rest))
    && (forall k :: k in r ==> k in keys)
    && (forall i, j :: 0 <= i < j < |r| ==> KeyLess(r[i], r[j]))
    && (forall i, k :: 0 <= i < |r| && k in rest ==> KeyLess(r[i], k))
  }

  /** Taking the least remaining key keeps SortingState. */
  lemma SortingStep(keys: set<Key>, r: seq<Key>, rest: set<Key>, m: Key)
    requires SortingState(keys, r, rest)
    requires m in rest && forall k :: k in rest ==> m == k || KeyLess(m, k)
    ensures SortingState(keys, r + [m], rest - {m})
  {
    var r' := r + [m];
    forall i, k | 0 <= i < |r| && k in rest - {m} ensures KeyLess(r[i], k) {
      KeyOrder(r[i], m, k);
    }
    assert forall i :: 0 <= i < |r| ==> r'[i] == r[i];
  }

  /** `getAll` on a valid store: the records in key order. */
  method ListRecords(s: Store) returns (rs: seq<Record>)
    requires StoreValid(s)
    ensures InKeyOrder(rs, s.records)
  {
    var keys := SortedKeys(s.records.Keys);
    rs := [];
    var i := 0;
    while i < |keys|
      invariant 0 <= i <= |keys| && |rs| == i
      invariant forall j :: 0 <= j < i ==> rs[j] == s.records[keys[j]] && rs[j].id == Some(keys[j])
    {
      rs := rs + [s.records[keys[i]]];
      i := i + 1;
    }
    forall k | k in s.records ensures exists j :: 0 <= j < |rs| && rs[j].id == Some(k) {
      var j :| 0 <= j < |keys| && keys[j] == k;
      assert rs[j].id == Some(k);
    }
  }

  /** The first record of a key-ordered listing has the least key. */
  lemma FirstIsLeast(a: seq<Record>, records: map<Key, Record>)
    requires InKeyOrder(a, records) && a != []
    ensures a[0].id.value in records
    ensures forall k :: k in records ==> k == a[0].id.value || KeyLess(a[0].id.value, k)
  {
    forall k | k in records ensures k == a[0].id.value || KeyLess(a[0].id.value, k) {
      var i :| 0 <= i < |a| && a[i].id == Some(k);
      if i > 0 {
        assert KeyLess(a[0].id.value, a[i].id.value);
      }
    }
  }

  /** Dropping the first record of a key-ordered listing lists the other records. */
  lemma DropFirst(a: seq<Record>, records: map<Key, Record>)
    requires InKeyOrder(a, records) && a != []
    ensures InKeyOrder(a[1..], records - {a[0].id.value})
  {
    DropFirstStored(a, records);
    DropFirstOrdered(a, records);
    DropFirstCovers(a, records);
  }

  lemma DropFirstStored(a: seq<Record>, records: map<Key, Record>)
    requires InKeyOrder(a, records) && a != []
    ensures forall p :: 0 <= p < |a[1..]| ==> a[1..][p].id.Some? && a[1..][p].id.value in records - {a[0].id.value}
                                              && (records - {a[0].id.value})[a[1..][p].id.value] == a[1..][p]
  {
    var x := a[0].id.value;
    if x.StrKey? {
      StringLessIrreflexive(x.s);
    }
    forall p | 0 <= p < |a| - 1 ensures a[1..][p] == a[p + 1] && a[p + 1].id.value != x {
      assert KeyLess(x, a[p + 1].id.value);
    }
  }

  lemma DropFirstOrdered(a: seq<Record>, records: map<Key, Record>)
    requires InKeyOrder(a, records) && a != []
    ensures forall p, q :: 0 <= p < q < |a[1..]| ==> a[1..][p].id.Some? && a[1..][q].id.Some? && KeyLess(a[1..][p].id.value, a[1..][q].id.value)
  {
    assert forall p :: 0 <= p < |a| - 1 ==> a[1..][p] == a[p + 1];
  }

  lemma DropFirstCovers(a: seq<Record>, records: map<Key, Record>)
    requires InKeyOrder(a, records) && a != []
    ensures forall k :: k in records - {a[0].id.value} ==> exists p :: 0 <= p < |a[1..]| && a[1..][p].id == Some(k)
  {
    var b := a[1..];
    forall k | k in records - {a[0].id.value} ensures exists p :: 0 <= p < |b| && b[p].id == Some(k) {
      var p :| 0 <= p < |a| && a[p].id == Some(k);
      assert p != 0;
      assert b[p - 1].id == Some(k);
    }
  }

  /** A key-ordered listing is empty exactly when the store is. */
  lemma InKeyOrderEmpty(rs: seq<Record>, records: map<Key, Record>)
    requires InKeyOrder(rs, records)
    ensures |rs| == 0 <==> |records| == 0
  {
    if |records| != 0 {
      var k :| k in records;
      assert exists i :: 0 <= i < |rs| && rs[i].id == Some(k);
    }
    if |rs| != 0 {
      assert rs[0].id.value in records;
    }
  }

  /** Key order fixes the listing: two lists of the same records in key order are equal. */
  lemma {:induction false} InKeyOrderUnique(a: seq<Record>, b: seq<Record>, records: map<Key, Record>)
    requires InKeyOrder(a, records) && InKeyOrder(b, records)
    ensures a == b
    decreases |a|
  {
    if a == [] || b == [] {
      if a != [] {
        FirstIsLeast(a, records);
      }
      if b != [] {
        FirstIsLeast(b, records);
      }
    } else {
      FirstIsLeast(a, records);
      FirstIsLeast(b, records);
      var x, y := a[0].id.value, b[0].id.value;
      KeyOrder(x, y, x);
      assert x == y;
      DropFirst(a, records);
      DropFirst(b, records);
      InKeyOrderUnique(a[1..], b[1..], records - {x});
      assert a == [a[0]] + a[1..] && b == [b[0]] + b[1..];
    }
  }

  // ---------------------------------------------------------------- seeding

  /** The six rows `onupgradeneeded` adds to a newly created store. Their `type` is upper case. */
  const SeedRows: seq<Record> := [
    Record(None, "INCOME", "근로소득", "급여", "정기급여", None),
    Record(None, "INCOME", "사업소득", "자영업", "순수익", None),
    Record(None, "INCOME", "기타소득", "투자", "배당금", None),
    Record(None, "EXPENSE", "생활비", "식비", "식료품", None),
    Record(None, "EXPENSE", "주거비", "관리비", "월세", None),
    Record(None, "EXPENSE", "교통비", "대중교통", "버스/지하철", None)
  ]

  /** Rows added one by one to a fresh store: row j under generated key j + 1. */
  function Numbered(rows: seq<Record>): map<Key, Record> {
    if rows == [] then map[]
    else Numbered(rows[..|rows| - 1])[NumKey(|rows|) := rows[|rows| - 1].(id := Some(NumKey(|rows|)))]
  }

  lemma {:induction false} NumberedKeys(rows: seq<Record>)
    ensures forall k :: k in Numbered(rows) <==> k.NumKey? && 1 <= k.n <= |rows|
  {
    if rows != [] {
      NumberedKeys(rows[..|rows| - 1]);
    }
  }

  lemma {:induction false} NumberedAt(rows: seq<Record>, j: nat)
    requires j < |rows|
    ensures NumKey(j + 1) in Numbered(rows)
    ensures Numbered(rows)[NumKey(j + 1)] == rows[j].(id := Some(NumKey(j + 1)))
  {
    NumberedKeys(rows);
    if j < |rows| - 1 {
      assert rows[..|rows| - 1][j] == rows[j];
      NumberedAt(rows[..|rows| - 1], j);
    }
  }

  /** The store the upgrade leaves behind when it creates the store: the six seed rows under keys 1..6. */
  function SeededStore(): Store {
    Store(Numbered(SeedRows), |SeedRows| + 1)
  }

  /** Adding row i to the store holding rows 0..i-1 generates key i + 1 and gives the store holding rows 0..i. */
  lemma SeedStep(rows: seq<Record>, i: nat)
    requires i < |rows| < KeyLimit && rows[i].id.None?
    ensures StoreRecord(Store(Numbered(rows[..i]), i + 1), rows[i], true)
      == Success((Store(Numbered(rows[..i + 1]), i + 2), NumKey(i + 1)))
  {
    NumberedKeys(rows[..i]);
    assert rows[..i + 1][..i] == rows[..i];
  }

  lemma {:induction false} NumberedValid(rows: seq<Record>)
    requires |rows| < KeyLimit
    ensures StoreValid(Store(Numbered(rows), |rows| + 1))
  {
    NumberedKeys(rows);
    forall k | k in Numbered(rows) ensures Numbered(rows)[k].id == Some(k) {
      NumberedAt(rows, k.n - 1);
    }
  }

  /**
   * The seeded store holds exactly the six seed rows, row j under key j + 1,
   * with the generator at 7; none of them has the `type` "income" or
   * "expense" that the category tabs filter on.
   */
  lemma SeededStoreContents()
    ensures StoreValid(SeededStore()) && SeededStore().current == 7
    ensures forall k :: k in SeededStore().records <==> k.NumKey? && 1 <= k.n <= 6
    ensures forall j :: 0 <= j < 6 ==> SeededStore().records[NumKey(j + 1)] == SeedRows[j].(id := Some(NumKey(j + 1)))
    ensures forall k :: k in SeededStore().records ==>
      SeededStore().records[k].kind != "income" && SeededStore().records[k].kind != "expense"
  {
    NumberedKeys(SeedRows);
    NumberedValid(SeedRows);
    forall j | 0 <= j < 6 ensures SeededStore().records[NumKey(j + 1)] == SeedRows[j].(id := Some(NumKey(j + 1))) {
      NumberedAt(SeedRows, j);
    }
    forall k | k in SeededStore().records
      ensures SeededStore().records[k].kind != "income" && SeededStore().records[k].kind != "expense"
    {
      NumberedAt(SeedRows, k.n - 1);
      assert SeedRows[k.n - 1].kind in {"INCOME", "EXPENSE"};
    }
  }

  // ---------------------------------------------------------------- the database

  /** `version` of CategoryDB. */
  const Version: nat := 3

  /** The database on disk: its version (0 while it does not exist), whether the `categories` store exists, and that store. */
  datatype Disk = Disk(version: nat, hasStore: bool, store: Store)

  /** Opening at a higher version runs `onupgradeneeded`: a missing store is created and seeded, an existing one is left alone. */
  function Upgrade(d: Disk): Disk {
    if d.version < Version then Disk(Version, true, if d.hasStore then d.store else SeededStore())
    else d
  }

  /**
   * The database a request works on after `ensureConnection`, or why it
   * failed: an existing connection is reused; otherwise the open fails when
   * the environment makes it fail or the disk is at a newer version, and
   * otherwise upgrades as needed.
   */
  function Connected(d: Disk, connected: bool, openFails: bool): Result<Disk, DbError> {
    if connected then Success(d)
    else if openFails then Failure(OpenFailed)
    else if d.version > Version then Failure(VersionError)
    else Success(Upgrade(d))
  }

  /** The upgrade seeds only a store it creates; it never touches an existing store. */
  lemma UpgradeSeedsOnce(d: Disk)
    ensures Upgrade(d).version == if d.version < Version then Version else d.version
    ensures d.version < Version && !d.hasStore ==> Upgrade(d).hasStore && Upgrade(d).store == SeededStore()
    ensures d.hasStore ==> Upgrade(d).hasStore && Upgrade(d).store == d.store
    ensures d.version >= Version ==> Upgrade(d) == d
    ensures Upgrade(Upgrade(d)) == Upgrade(d)
  {
  }

  /** Once connected, later requests reuse the connection: connecting again changes nothing. */
  lemma ReuseConnection(d: Disk, openFails: bool)
    ensures Connected(d, true, openFails) == Success(d)
  {
  }

  /**
   * What `addCategory` leaves behind, from the disk `d` and connection flag
   * `c` before the call to `d2`, `c2` after it, with result `r`.
   */
  predicate AddOutcome(d: Disk, c: bool, openFails: bool, value: Record, d2: Disk, c2: bool, r: Result<Key, DbError>) {
    var pre := Connected(d, c, openFails);
    && (pre.Failure? ==> r == Failure(pre.error) && d2 == d && !c2)
    && (pre.Success? ==> c2)
    && (pre.Success? && !pre.value.hasStore ==> r == Failure(NotFoundError) && d2 == pre.value)
    && (pre.Success? && pre.value.hasStore ==>
          var res := StoreRecord(pre.value.store, value, true);
          && (res.Success? ==> r == Success(res.value.1) && d2 == pre.value.(store := res.value.0))
          && (res.Failure? ==> r == Failure(res.error) && d2 == pre.value))
  }

  /** What `updateCategory` leaves behind. */
  predicate UpdateOutcome(d: Disk, c: bool, openFails: bool, value: Record, d2: Disk, c2: bool, r: Outcome<DbError>) {
    var pre := Connected(d, c, openFails);
    && (pre.Failure? ==> r == Fail(pre.error) && d2 == d && !c2)
    && (pre.Success? ==> c2)
    && (pre.Success? && !pre.value.hasStore ==> r == Fail(NotFoundError) && d2 == pre.value)
    && (pre.Success? && pre.value.hasStore ==>
          var res := StoreRecord(pre.value.store, value, false);
          && (res.Success? ==> r == Pass && d2 == pre.value.(store := res.value.0))
          && (res.Failure? ==> r == Fail(res.error) && d2 == pre.value))
  }

  /** What `deleteCategory` leaves behind. */
  predicate DeleteOutcome(d: Disk, c: bool, openFails: bool, key: Key, d2: Disk, c2: bool, r: Outcome<DbError>) {
    var pre := Connected(d, c, openFails);
    && (pre.Failure? ==> r == Fail(pre.error) && d2 == d && !c2)
    && (pre.Success? ==> c2)
    && (pre.Success? && !pre.value.hasStore ==> r == Fail(NotFoundError) && d2 == pre.value)
    && (pre.Success? && pre.value.hasStore ==>
          r == Pass && d2 == pre.value.(store := Store(pre.value.store.records - {key}, pre.value.store.current)))
  }

  class CategoryDB {
    /** The database as the browser keeps it. */
    var disk: Disk
    /** `db !== null`. */
    var connected: bool

    ghost predicate Valid()
      reads this
    {
      StoreValid(disk.store)
    }

    /** `new CategoryDB()`: no connection yet, over whatever database the browser holds. */
    constructor (d: Disk)
      requires StoreValid(d.store)
      ensures Valid() && disk == d && !connected
    {
      disk := d;
      connected := false;
    }

    /**
     * `connect`: a failed open rejects and leaves `db` as it was; opening a
     * database at a newer version fails with VersionError; otherwise the
     * upgrade runs when the disk version is below 3 (creating and seeding
     * the store only when it is missing) and `db` is set.
     */
    method Connect(openFails: bool) returns (r: Outcome<DbError>)
      requires Valid()
      modifies this
      ensures Valid()
      ensures openFails ==> r == Fail(OpenFailed) && disk == old(disk) && connected == old(connected)
      ensures !openFails && old(disk).version > Version ==>
        r == Fail(VersionError) && disk == old(disk) && connected == old(connected)
      ensures !openFails && old(disk).version <= Version ==> r == Pass && connected && disk == Upgrade(old(disk))
    {
      if openFails {
        return Fail(OpenFailed);
      }
      if disk.version > Version {
        return Fail(VersionError);
      }
      if disk.version < Version {
        if !disk.hasStore {
          disk := Disk(disk.version, true, EmptyStore);
          var i := 0;
          while i < |SeedRows|
            invariant 0 <= i <= |SeedRows|
            invariant disk.hasStore && disk.version == old(disk).version
            invariant disk.store == Store(Numbered(SeedRows[..i]), i + 1)
          {
            SeedStep(SeedRows, i);
            var res := StoreRecord(disk.store, SeedRows[i], true);
            disk := disk.(store := res.value.0);
            i := i + 1;
          }
          assert SeedRows[..|SeedRows|] == SeedRows;
          NumberedValid(SeedRows);
        }
        disk := disk.(version := Version);
      }
      connected := true;
      r := Pass;
    }

    /** `ensureConnection`: connect only while `db` is null. */
    method EnsureConnection(openFails: bool) returns (r: Outcome<DbError>)
      requires Valid()
      modifies this
      ensures Valid()
      ensures Connected(old(disk), old(connected), openFails).Success? ==>
        r == Pass && connected && disk == Connected(old(disk), old(connected), openFails).value
      ensures Connected(old(disk), old(connected), openFails).Failure? ==>
        r == Fail(Connected(old(disk), old(connected), openFails).error) && disk == old(disk) && !connected
    {
      if !connected {
        r := Connect(openFails);
      } else {
        r := Pass;
      }
    }

    /** `getAllCategories`: after connecting, every record once in key order; NotFoundError when the store is missing. */
    method GetAllCategories(openFails: bool) returns (r: Result<seq<Record>, DbError>)
      requires Valid()
      modifies this
      ensures Valid()
      ensures var pre := Connected(old(disk), old(connected), openFails);
        && (pre.Failure? ==> r == Failure(pre.error) && disk == old(disk) && !connected)
        && (pre.Success? ==> connected && disk == pre.value)
        && (pre.Success? && !pre.value.hasStore ==> r == Failure(NotFoundError))
        && (pre.Success? && pre.value.hasStore ==> r.Success? && InKeyOrder(r.value, disk.store.records))
    {
      var c := EnsureConnection(openFails);
      if c.Fail? {
        return Failure(c.error);
      }
      if !disk.hasStore {
        return Failure(NotFoundError);
      }
      var rs := ListRecords(disk.store);
      r := Success(rs);
    }

    /**
     * `addCategory`: after connecting, the storage operation with the
     * no-overwrite flag; resolves with the record's key.
     */
    method AddCategory(value: Record, openFails: bool) returns (r: Result<Key, DbError>)
      requires Valid()
      modifies this
      ensures Valid()
      ensures AddOutcome(old(disk), old(connected), openFails, value, disk, connected, r)
    {
      var c := EnsureConnection(openFails);
      if c.Fail? {
        return Failure(c.error);
      }
      if !disk.hasStore {
        return Failure(NotFoundError);
      }
      var res := StoreRecord(disk.store, value, true);
      if res.Success? {
        StoreRecordKeepsValid(disk.store, value, true);
        disk := disk.(store := res.value.0);
        r := Success(res.value.1);
      } else {
        r := Failure(res.error);
      }
    }

    /** `updateCategory`: after connecting, the storage operation without the no-overwrite flag (`put`). */
    method UpdateCategory(value: Record, openFails: bool) returns (r: Outcome<DbError>)
      requires Valid()
      modifies this
      ensures Valid()
      ensures UpdateOutcome(old(disk), old(connected), openFails, value, disk, connected, r)
    {
      var c := EnsureConnection(openFails);
      if c.Fail? {
        return Fail(c.error);
      }
      if !disk.hasStore {
        return Fail(NotFoundError);
      }
      var res := StoreRecord(disk.store, value, false);
      if res.Success? {
        StoreRecordKeepsValid(disk.store, value, false);
        disk := disk.(store := res.value.0);
        r := Pass;
      } else {
        r := Fail(res.error);
      }
    }

    /** `deleteCategory`: after connecting, removes the key if present (a no-op otherwise); the generator is untouched. */
    method DeleteCategory(key: Key, openFails: bool) returns (r: Outcome<DbError>)
      requires Valid()
      modifies this
      ensures Valid()
      ensures DeleteOutcome(old(disk), old(connected), openFails, key, disk, connected, r)
    {
      var c := EnsureConnection(openFails);
      if c.Fail? {
        return Fail(c.error);
      }
      if !disk.hasStore {
        return Fail(NotFoundError);
      }
      disk := disk.(store := Store(disk.store.records - {key}, disk.store.current));
      r := Pass;
    }

    /**
     * The `replaceAllCategories` that src/utils/categoryInitializer.ts calls
     * and this class does not define, as a corrected operation built like
     * `updateCategory`: after connecting, one read-write transaction that
     * clears the store and puts every record in order. A put that fails, or
     * an `abort` of the transaction before it commits, leaves the store as
     * it was.
     */
    method ReplaceAllCategories(rows: seq<Record>, openFails: bool, abort: Option<DbError>) returns (r: Outcome<DbError>)
      requires Valid()
      modifies this
      ensures Valid()
      ensures var pre := Connected(old(disk), old(connected), openFails);
        && (pre.Failure? ==> r == Fail(pre.error) && disk == old(disk) && !connected)
        && (pre.Success? ==> connected)
        && (pre.Success? && !pre.value.hasStore ==> r == Fail(NotFoundError) && disk == pre.value)
        && (pre.Success? && pre.value.hasStore ==>
              var res := PutAll(Store(map[], pre.value.store.current), rows);
              && (res.Success? && abort.None? ==> r == Pass && disk == pre.value.(store := res.value))
              && (res.Success? && abort.Some? ==> r == Fail(abort.value) && disk == pre.value)
              && (res.Failure? ==> r == Fail(res.error) && disk == pre.value))
    {
      var c := EnsureConnection(openFails);
      if c.Fail? {
        return Fail(c.error);
      }
      if !disk.hasStore {
        return Fail(NotFoundError);
      }
      var d := disk;
      var s := Store(map[], disk.store.current);
      var i := 0;
      while i < |rows|
        invariant 0 <= i <= |rows|
        invariant disk == d && connected
        invariant PutAll(Store(map[], disk.store.current), rows[..i]) == Success(s)
        invariant StoreValid(s)
      {
        PutAllPrefixStep(Store(map[], disk.store.current), rows, i, s);
        var res := StoreRecord(s, rows[i], false);
        if res.Failure? {
          PutAllStopsAtFailure(Store(map[], disk.store.current), rows, i + 1);
          return Fail(res.error);
        }
        StoreRecordKeepsValid(s, rows[i], false);
        s := res.value.0;
        i := i + 1;
      }
      assert rows[..|rows|] == rows;
      if abort.Some? {
        return Fail(abort.value);
      }
      disk := disk.(store := s);
      r := Pass;
    }
  }

  /** Putting rows one after the other from a store: the first failure ends the run. */
  function PutAll(s: Store, rows: seq<Record>): Result<Store, DbError> {
    if rows == [] then Success(s)
    else
      match PutAll(s, rows[..|rows| - 1])
      case Failure(e) => Failure(e)
      case Success(t) =>
        match StoreRecord(t, rows[|rows| - 1], false)
        case Failure(e) => Failure(e)
        case Success((u, _)) => Success(u)
  }

  /** One more row after a prefix that went in: the run's outcome is that row's put. */
  lemma PutAllPrefixStep(s0: Store, rows: seq<Record>, i: nat, s: Store)
    requires i < |rows| && PutAll(s0, rows[..i]) == Success(s)
    ensures StoreRecord(s, rows[i], false).Failure? ==> PutAll(s0, rows[..i + 1]) == Failure(StoreRecord(s, rows[i], false).error)
    ensures StoreRecord(s, rows[i], false).Success? ==> PutAll(s0, rows[..i + 1]) == Success(StoreRecord(s, rows[i], false).value.0)
  {
    assert rows[..i + 1][..i] == rows[..i];
  }

  /** Once a prefix fails, the whole run fails with the same error. */
  lemma {:induction false} PutAllStopsAtFailure(s: Store, rows: seq<Record>, i: nat)
    requires i <= |rows| && PutAll(s, rows[..i]).Failure?
    ensures PutAll(s, rows) == PutAll(s, rows[..i])
    decreases |rows| - i
  {
    if i < |rows| {
      assert rows[..i + 1][..i] == rows[..i];
      PutAllStopsAtFailure(s, rows, i + 1);
    } else {
      assert rows[..i] == rows;
    }
  }

  /** Once the earlier rows are in, the last row goes in at its own id. */
  lemma PutAllLast(s: Store, rows: seq<Record>)
    requires rows != [] && rows[|rows| - 1].id.Some? && PutAll(s, rows[..|rows| - 1]).Success?
    ensures PutAll(s, rows).Success?
    ensures PutAll(s, rows).value.records
      == PutAll(s, rows[..|rows| - 1]).value.records[rows[|rows| - 1].id.value := rows[|rows| - 1]]
  {
    PutStoresAtId(PutAll(s, rows[..|rows| - 1]).value, rows[|rows| - 1]);
  }

  /** The map step of PutAllDistinctIds: the last row, with an id no earlier row has, put into the records so far. */
  lemma DistinctIdsStep(base: map<Key, Record>, t: map<Key, Record>, u: map<Key, Record>, rows: seq<Record>)
    requires rows != [] && forall i :: 0 <= i < |rows| ==> rows[i].id.Some?
    requires forall i :: 0 <= i < |rows| - 1 ==> rows[i].id != rows[|rows| - 1].id
    requires u == t[rows[|rows| - 1].id.value := rows[|rows| - 1]]
    requires forall k :: k in t <==> k in base || exists i :: 0 <= i < |rows| - 1 && rows[i].id == Some(k)
    requires forall i :: 0 <= i < |rows| - 1 ==> t[rows[i].id.value] == rows[i]
    ensures forall k :: k in u <==> k in base || exists i :: 0 <= i < |rows| && rows[i].id == Some(k)
    ensures forall i :: 0 <= i < |rows| ==> u[rows[i].id.value] == rows[i]
  {
    var n := |rows| - 1;
    forall k: Key
      ensures k in u <==> k in base || exists i :: 0 <= i < |rows| && rows[i].id == Some(k)
    {
      if k in u && k != rows[n].id.value && k !in base {
        var i :| 0 <= i < n && rows[i].id == Some(k);
      }
      if exists i :: 0 <= i < |rows| && rows[i].id == Some(k) {
        var i :| 0 <= i < |rows| && rows[i].id == Some(k);
        if i < n {
          assert k in t;
        }
      }
    }
  }

  /** The facts of PutAllDistinctIds about a prefix, restated about the positions of the whole list. */
  lemma PrefixFacts(base: map<Key, Record>, t: map<Key, Record>, init: seq<Record>, rows: seq<Record>)
    requires rows != [] && init == rows[..|rows| - 1]
    requires forall i :: 0 <= i < |rows| ==> rows[i].id.Some?
    requires forall k :: k in t <==> k in base || exists i :: 0 <= i < |init| && init[i].id == Some(k)
    requires forall i :: 0 <= i < |init| ==> init[i].id.Some? && t[init[i].id.value] == init[i]
    ensures forall k :: k in t <==> k in base || exists i :: 0 <= i < |rows| - 1 && rows[i].id == Some(k)
    ensures forall i :: 0 <= i < |rows| - 1 ==> t[rows[i].id.value] == rows[i]
  {
    assert forall i :: 0 <= i < |init| ==> init[i] == rows[i];
  }

  /**
   * Replacing with rows that all carry distinct `id`s succeeds and leaves
   * exactly those rows, each under its own `id`.
   */
  lemma {:induction false} PutAllDistinctIds(s: Store, rows: seq<Record>)
    requires forall i :: 0 <= i < |rows| ==> rows[i].id.Some?
    requires forall i, j :: 0 <= i < j < |rows| ==> rows[i].id != rows[j].id
    ensures PutAll(s, rows).Success?
    ensures forall k :: k in PutAll(s, rows).value.records <==>
      k in s.records || exists i :: 0 <= i < |rows| && rows[i].id == Some(k)
    ensures forall i :: 0 <= i < |rows| ==> PutAll(s, rows).value.records[rows[i].id.value] == rows[i]
  {
    if rows != [] {
      var n := |rows| - 1;
      var init := rows[..n];
      assert forall i :: 0 <= i < n ==> init[i] == rows[i];
      PutAllDistinctIds(s, init);
      PutAllLast(s, rows);
      PrefixFacts(s.records, PutAll(s, init).value.records, init, rows);
      DistinctIdsStep(s.records, PutAll(s, init).value.records, PutAll(s, rows).value.records, rows);
    }
  }
}
