/**
 * The mapping branch of `to_hex` serialises the mapping with
 * `json.dumps(value, sort_keys=True)`.  A mapping is its entries in
 * insertion order, keys distinct; the serialiser sorts them by key and
 * writes `{"key": value, ...}`.  Keys are compared as Python compares
 * strings, which on their encoded bytes is the lexicographic byte order.
 */
module JsonMap {
  import opened Numerals

  /** One key of the mapping with the JSON text of its value. */
  datatype Entry = Entry(key: seq<byte>, json: seq<byte>)

  /** Lexicographic order on byte strings; a proper prefix comes first. */
  predicate Below(a: seq<byte>, b: seq<byte>) {
    |b| > 0 && (|a| == 0 || a[0] < b[0] || (a[0] == b[0] && Below(a[1..], b[1..])))
  }

  lemma {:induction false} BelowIrreflexive(a: seq<byte>)
    ensures !Below(a, a)
  {
    if |a| > 0 {
      BelowIrreflexive(a[1..]);
    }
  }

  lemma {:induction false} BelowTransitive(a: seq<byte>, b: seq<byte>, c: seq<byte>)
    requires Below(a, b) && Below(b, c)
    ensures Below(a, c)
  {
    if |a| > 0 && a[0] == b[0] && b[0] == c[0] {
      BelowTransitive(a[1..], b[1..], c[1..]);
    }
  }

  lemma {:induction false} BelowTotal(a: seq<byte>, b: seq<byte>)
    ensures a == b || Below(a, b) || Below(b, a)
  {
    if |a| > 0 && |b| > 0 && a[0] == b[0] {
      BelowTotal(a[1..], b[1..]);
      if a[1..] == b[1..] {
        assert a == [a[0]] + a[1..] && b == [b[0]] + b[1..];
      }
    }
  }

  lemma BelowAsymmetric(a: seq<byte>, b: seq<byte>)
    requires Below(a, b)
    ensures !Below(b, a)
  {
    if Below(b, a) {
      BelowTransitive(a, b, a);
      BelowIrreflexive(a);
    }
  }

  predicate DistinctKeys(s: seq<Entry>) {
    forall i, j :: 0 <= i < j < |s| ==> s[i].key != s[j].key
  }

  predicate StrictlySorted(s: seq<Entry>) {
    forall i, j :: 0 <= i < j < |s| ==> Below(s[i].key, s[j].key)
  }

  /** Places `e` before the first entry whose key is not below its own. */
  function Insert(e: Entry, s: seq<Entry>): (r: seq<Entry>)
    ensures multiset(r) == multiset(s) + multiset{e}
  {
    if s == [] then [e]
    else if Below(s[0].key, e.key) then
      assert s == [s[0]] + s[1..];
      [s[0]] + Insert(e, s[1..])
    else [e] + s
  }

  /** The entries in key order (insertion sort). */
  function SortByKey(s: seq<Entry>): (r: seq<Entry>)
    ensures multiset(r) == multiset(s)
  {
    if s == [] then []
    else
      assert s == [s[0]] + s[1..];
      Insert(s[0], SortByKey(s[1..]))
  }

  lemma {:induction false} InsertSorted(e: Entry, s: seq<Entry>)
    requires StrictlySorted(s)
    requires forall x :: x in s ==> x.key != e.key
    ensures StrictlySorted(Insert(e, s))
  {
    if s == [] {
    } else if Below(s[0].key, e.key) {
      InsertSorted(e, s[1..]);
      var r := Insert(e, s);
      var t := Insert(e, s[1..]);
      assert r == [s[0]] + t;
      forall j | 0 < j < |r|
        ensures Below(s[0].key, r[j].key)
      {
        assert r[j] in multiset(t);
        assert r[j] in multiset(s[1..]) + multiset{e};
        if r[j] != e {
          assert r[j] in s[1..];
          var k :| 0 <= k < |s[1..]| && s[1..][k] == r[j];
          assert s[k + 1] == r[j];
        }
      }
    } else {
      BelowTotal(s[0].key, e.key);
      forall j | 0 <= j < |s|
        ensures Below(e.key, s[j].key)
      {
        if j > 0 {
          BelowTransitive(e.key, s[0].key, s[j].key);
        }
      }
    }
  }

  lemma {:induction false} SortByKeySorted(s: seq<Entry>)
    requires DistinctKeys(s)
    ensures StrictlySorted(SortByKey(s))
  {
    if s != [] {
      var rest := SortByKey(s[1..]);
      SortByKeySorted(s[1..]);
      forall x | x in rest
        ensures x.key != s[0].key
      {
        assert x in multiset(s[1..]);
        var k :| 0 <= k < |s[1..]| && s[1..][k] == x;
        assert s[k + 1] == x;
      }
      InsertSorted(s[0], rest);
    }
  }

  lemma MultisetTail(a: seq<Entry>, b: seq<Entry>)
    requires a != [] && b != [] && a[0] == b[0]
    requires multiset(a) == multiset(b)
    ensures multiset(a[1..]) == multiset(b[1..])
  {
    assert a == [a[0]] + a[1..] && b == [b[0]] + b[1..];
    assert multiset(a[1..]) == multiset(a) - multiset{a[0]};
    assert multiset(b[1..]) == multiset(b) - multiset{b[0]};
  }

  /** Key-ordered lists with the same entries start with the same entry. */
  lemma SortedSameHead(a: seq<Entry>, b: seq<Entry>)
    requires StrictlySorted(a) && StrictlySorted(b)
    requires a != [] && b != [] && multiset(a) == multiset(b)
    ensures a[0] == b[0]
  {
    assert a[0] in multiset(b) && b[0] in multiset(a);
    if a[0] != b[0] {
      var i :| 0 <= i < |a| && a[i] == b[0];
      var j :| 0 <= j < |b| && b[j] == a[0];
      assert Below(a[0].key, a[i].key);
      assert Below(b[0].key, b[j].key);
      BelowAsymmetric(a[0].key, b[0].key);
    }
  }

  /** Two key-ordered entry lists with the same entries are the same list. */
  lemma {:induction false} SortedUnique(a: seq<Entry>, b: seq<Entry>)
    requires StrictlySorted(a) && StrictlySorted(b)
    requires multiset(a) == multiset(b)
    ensures a == b
  {
    if a == [] {
      assert |b| == |multiset(b)| == 0;
    } else {
      assert |b| == |multiset(b)| == |a| > 0;
      SortedSameHead(a, b);
      MultisetTail(a, b);
      SortedUnique(a[1..], b[1..]);
      assert a == [a[0]] + a[1..] && b == [b[0]] + b[1..];
    }
  }

  /** Sorting forgets the insertion order: reordered entries sort to the same list. */
  lemma SortByKeyOrderIndependent(a: seq<Entry>, b: seq<Entry>)
    requires DistinctKeys(a) && DistinctKeys(b)
    requires multiset(a) == multiset(b)
    ensures SortByKey(a) == SortByKey(b)
  {
    SortByKeySorted(a);
    SortByKeySorted(b);
    SortedUnique(SortByKey(a), SortByKey(b));
  }

  const LEFT_BRACE: byte := '{' as int
  const RIGHT_BRACE: byte := '}' as int
  const QUOTE: byte := '"' as int
  const COLON: byte := ':' as int
  const COMMA: byte := ',' as int
  const SPACE: byte := ' ' as int

  /** `"key": value` */
  function Member(e: Entry): seq<byte> {
    [QUOTE] + e.key + [QUOTE, COLON, SPACE] + e.json
  }

  /** The members joined by `, `. */
  function Members(s: seq<Entry>): seq<byte> {
    if s == [] then []
    else if |s| == 1 then Member(s[0])
    else Member(s[0]) + [COMMA, SPACE] + Members(s[1..])
  }

  /** `json.dumps(mapping, sort_keys=True)`: the object with its members in key order. */
  function Dumps(entries: seq<Entry>): (text: seq<byte>)
    ensures |text| >= 2 && text[0] == LEFT_BRACE && text[|text| - 1] == RIGHT_BRACE
  {
    [LEFT_BRACE] + Members(SortByKey(entries)) + [RIGHT_BRACE]
  }
}
