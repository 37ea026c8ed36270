/** The rubric endpoints of api/views.py (RubricViewSet): the default
    listing ordered by name, the top-5 listing ordered by counter, and the
    increment/decrement actions on one row. */
module RubricViews {
  import opened Models
  import opened Ordering

  /** Lexicographic order of names by character code. */
  predicate LexLe(a: string, b: string)
    decreases |a|
  {
    a == [] || (b != [] && (a[0] < b[0] || (a[0] == b[0] && LexLe(a[1..], b[1..]))))
  }

  lemma {:induction false} LexLeTotal(a: string, b: string)
    ensures LexLe(a, b) || LexLe(b, a)
    decreases |a|
  {
    if a != [] && b != [] && a[0] == b[0] { LexLeTotal(a[1..], b[1..]); }
  }

  lemma {:induction false} LexLeTransitive(a: string, b: string, c: string)
    requires LexLe(a, b) && LexLe(b, c)
    ensures LexLe(a, c)
    decreases |a|
  {
    if a != [] && b != [] && c != [] && a[0] == b[0] == c[0] {
      LexLeTransitive(a[1..], b[1..], c[1..]);
    }
  }

  /** `ordering = ['name']`. */
  predicate NameLe(x: RubricRecord, y: RubricRecord) {
    LexLe(x.name, y.name)
  }

  /** `order_by('-counter')`. */
  predicate CounterDesc(x: RubricRecord, y: RubricRecord) {
    x.counter >= y.counter
  }

  lemma NameLeIsTotalPreorder()
    ensures Total(NameLe) && Transitive(NameLe)
  {
    forall x: RubricRecord, y: RubricRecord ensures NameLe(x, y) || NameLe(y, x) {
      LexLeTotal(x.name, y.name);
    }
    forall x: RubricRecord, y: RubricRecord, z: RubricRecord | NameLe(x, y) && NameLe(y, z)
      ensures NameLe(x, z)
    {
      LexLeTransitive(x.name, y.name, z.name);
    }
  }

  /** GET /rubrics/: every row, ordered by name. */
  function Listing(rows: seq<RubricRecord>): (r: seq<RubricRecord>)
    ensures multiset(r) == multiset(rows)
    ensures SortedBy(r, NameLe)
  {
    NameLeIsTotalPreorder();
    SortBySorted(rows, NameLe);
    SortBy(rows, NameLe)
  }

  const TopCount: nat := 5

  /** GET /rubrics/top: the first five rows by descending counter. */
  function Top(rows: seq<RubricRecord>): seq<RubricRecord> {
    var sorted := SortBy(rows, CounterDesc);
    sorted[..if |sorted| < TopCount then |sorted| else TopCount]
  }

  lemma CounterDescIsTotalPreorder()
    ensures Total(CounterDesc) && Transitive(CounterDesc)
  {
  }

  /** A sorted sequence cut in two: everything before the cut is ordered
      before everything after it. */
  lemma PrefixBeforeSuffix(sorted: seq<RubricRecord>, k: nat)
    requires k <= |sorted| && SortedBy(sorted, CounterDesc)
    ensures forall a: RubricRecord, b: RubricRecord :: a in sorted[..k] && b in multiset(sorted[k..]) ==> a.counter >= b.counter
  {
    forall a: RubricRecord, b: RubricRecord | a in sorted[..k] && b in multiset(sorted[k..])
      ensures a.counter >= b.counter
    {
      var i :| 0 <= i < k && sorted[..k][i] == a;
      var j :| 0 <= j < |sorted[k..]| && sorted[k..][j] == b;
      assert sorted[i] == a && sorted[k + j] == b;
    }
  }

  /** A sequence cut in two: the rows after the cut are the rows minus
      those before it. */
  lemma MultisetCut(s: seq<RubricRecord>, k: nat)
    requires k <= |s|
    ensures multiset(s) - multiset(s[..k]) == multiset(s[k..])
    ensures multiset(s[..k]) <= multiset(s)
  {
    assert s == s[..k] + s[k..];
  }

  /** The top listing holds min(5, n) of the rows, in non-increasing counter
      order, and no row left out has a larger counter than any row shown. */
  lemma {:induction false} TopIsTopFive(rows: seq<RubricRecord>)
    ensures |Top(rows)| == if |rows| < TopCount then |rows| else TopCount
    ensures forall i, j :: 0 <= i < j < |Top(rows)| ==> Top(rows)[i].counter >= Top(rows)[j].counter
    ensures multiset(Top(rows)) <= multiset(rows)
    ensures forall a: RubricRecord, b: RubricRecord :: a in Top(rows) && b in multiset(rows) - multiset(Top(rows)) ==> a.counter >= b.counter
  {
    CounterDescIsTotalPreorder();
    SortBySorted(rows, CounterDesc);
    var sorted := SortBy(rows, CounterDesc);
    var top := Top(rows);
    var k := |top|;
    assert top == sorted[..k];
    forall i, j | 0 <= i < j < k ensures top[i].counter >= top[j].counter {
      assert CounterDesc(sorted[i], sorted[j]);
    }
    assert multiset(sorted) == multiset(rows);
    MultisetCut(sorted, k);
    PrefixBeforeSuffix(sorted, k);
  }

  /** Reply of the increment and decrement actions. */
  datatype CounterReply = RubricNotFound | CounterUpdated(name: string, counter: int)

  /** POST /rubrics/{name}/increment: `found` is the row the name looked up,
      or null when there is none. */
  method IncrementAction(found: Rubric?) returns (reply: CounterReply)
    modifies found
    ensures found == null ==> reply == RubricNotFound
    ensures found != null ==> found.counter == old(found.counter) + 1 && found.name == old(found.name)
    ensures found != null ==> reply == CounterUpdated(found.name, found.counter)
  {
    if found == null {
      return RubricNotFound;
    }
    found.IncrementCounter();
    reply := CounterUpdated(found.name, found.counter);
  }

  /** POST /rubrics/{name}/decrement: the counter is lowered but never below 0. */
  method DecrementAction(found: Rubric?) returns (reply: CounterReply)
    modifies found
    ensures found == null ==> reply == RubricNotFound
    ensures found != null ==> found.name == old(found.name)
    ensures found != null ==> found.counter == if old(found.counter) > 0 then old(found.counter) - 1 else old(found.counter)
    ensures found != null ==> reply == CounterUpdated(found.name, found.counter)
  {
    if found == null {
      return RubricNotFound;
    }
    found.DecrementCounter();
    reply := CounterUpdated(found.name, found.counter);
  }
}
