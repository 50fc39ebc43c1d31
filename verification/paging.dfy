/** The listing order and the pages shared by the delete and view dialogues
    (bot/handlers/delete_rule.py and bot/handlers/view_config.py): rules
    sorted by `(value.lower(), type token)`, shown twenty to a page. */
module Paging {
  import opened Strings
  import opened Enums
  import opened RulesFile

  // -----------------------------------------------------------------------
  // Python's string order

  /** `a <= b` on Python strings: lexicographic by code point. */
  predicate StrLe(a: string, b: string)
    decreases |a|
  {
    a == [] || (b != [] && (a[0] < b[0] || (a[0] == b[0] && StrLe(a[1..], b[1..]))))
  }

  lemma {:induction false} StrLeRefl(a: string)
    ensures StrLe(a, a)
    decreases |a|
  {
    if a != [] {
      StrLeRefl(a[1..]);
    }
  }

  lemma {:induction false} StrLeTotal(a: string, b: string)
    ensures StrLe(a, b) || StrLe(b, a)
    decreases |a|
  {
    if a != [] && b != [] && a[0] == b[0] {
      StrLeTotal(a[1..], b[1..]);
    }
  }

  lemma {:induction false} StrLeAntisym(a: string, b: string)
    requires StrLe(a, b) && StrLe(b, a)
    ensures a == b
    decreases |a|
  {
    if a != [] {
      StrLeAntisym(a[1..], b[1..]);
      assert a == [a[0]] + a[1..] && b == [b[0]] + b[1..];
    }
  }

  lemma {:induction false} StrLeTrans(a: string, b: string, c: string)
    requires StrLe(a, b) && StrLe(b, c)
    ensures StrLe(a, c)
    decreases |a|
  {
    if a != [] && a[0] == b[0] && b[0] == c[0] {
      StrLeTrans(a[1..], b[1..], c[1..]);
    }
  }

  // -----------------------------------------------------------------------
  // the listing order

  /** `(rule.value.lower(), rule.type.value)` */
  function RuleKey(r: Rule): (string, string) {
    (Lower(r.value), RuleTypeToken(r.ty))
  }

  /** Tuple order on the keys: first the lower-cased values, then, on equal
      values, the type tokens. */
  predicate KeyLe(a: Rule, b: Rule) {
    var ka, kb := RuleKey(a), RuleKey(b);
    StrLe(ka.0, kb.0) && (ka.0 == kb.0 ==> StrLe(ka.1, kb.1))
  }

  lemma {:induction false} KeyLeTotal(a: Rule, b: Rule)
    ensures KeyLe(a, b) || KeyLe(b, a)
  {
    var ka, kb := RuleKey(a), RuleKey(b);
    StrLeTotal(ka.0, kb.0);
    StrLeTotal(ka.1, kb.1);
  }

  lemma {:induction false} KeyLeTrans(a: Rule, b: Rule, c: Rule)
    requires KeyLe(a, b) && KeyLe(b, c)
    ensures KeyLe(a, c)
  {
    var ka, kb, kc := RuleKey(a), RuleKey(b), RuleKey(c);
    StrLeTrans(ka.0, kb.0, kc.0);
    if ka.0 == kc.0 {
      StrLeAntisym(ka.0, kb.0);
      StrLeTrans(ka.1, kb.1, kc.1);
    }
  }

  /** An entry of `list_rules`: the line index and the rule. */
  type Entry = (nat, Rule)

  predicate Sorted(s: seq<Entry>) {
    forall i, j :: 0 <= i < j < |s| ==> KeyLe(s[i].1, s[j].1)
  }

  /** Put `x` after every entry whose key is at most its own. */
  function Insert(s: seq<Entry>, x: Entry): (r: seq<Entry>)
    ensures |r| == |s| + 1
  {
    if s == [] then [x]
    else if KeyLe(s[0].1, x.1) then [s[0]] + Insert(s[1..], x)
    else [x] + s
  }

  /** Inserting adds exactly `x` to the entries. */
  lemma {:induction false} InsertPermutes(s: seq<Entry>, x: Entry)
    ensures multiset(Insert(s, x)) == multiset(s) + multiset{x}
  {
    if s != [] && KeyLe(s[0].1, x.1) {
      InsertPermutes(s[1..], x);
      assert s == [s[0]] + s[1..];
    }
  }

  lemma {:induction false} InsertSorted(s: seq<Entry>, x: Entry)
    requires Sorted(s)
    ensures Sorted(Insert(s, x))
  {
    var r := Insert(s, x);
    if s == [] {
    } else if KeyLe(s[0].1, x.1) {
      InsertSorted(s[1..], x);
      InsertPermutes(s[1..], x);
      var tail := Insert(s[1..], x);
      forall j | 0 <= j < |tail| ensures KeyLe(s[0].1, tail[j].1) {
        assert tail[j] in multiset(tail);
        if tail[j] != x {
          assert tail[j] in multiset(s[1..]);
          var k :| 0 <= k < |s[1..]| && s[1..][k] == tail[j];
          assert s[k + 1] == tail[j];
        }
      }
      assert r == [s[0]] + tail;
    } else {
      KeyLeTotal(s[0].1, x.1);
      forall j | 0 <= j < |s| ensures KeyLe(x.1, s[j].1) {
        if j > 0 {
          KeyLeTrans(x.1, s[0].1, s[j].1);
        }
      }
    }
  }

  /** `sorted(entries, key=...)`: an insertion sort that keeps entries with
      equal keys in their input order, as Python's stable sort does. */
  function SortEntries(xs: seq<Entry>): (r: seq<Entry>)
    ensures |r| == |xs|
    ensures multiset(r) == multiset(xs)
  {
    if xs == [] then []
    else
      assert xs == xs[..|xs| - 1] + [xs[|xs| - 1]];
      InsertPermutes(SortEntries(xs[..|xs| - 1]), xs[|xs| - 1]);
      Insert(SortEntries(xs[..|xs| - 1]), xs[|xs| - 1])
  }

  /** The sort returns a permutation of its input in key order. */
  lemma {:induction false} SortEntriesSorted(xs: seq<Entry>)
    ensures Sorted(SortEntries(xs))
  {
    if xs != [] {
      SortEntriesSorted(xs[..|xs| - 1]);
      InsertSorted(SortEntries(xs[..|xs| - 1]), xs[|xs| - 1]);
    }
  }

  /** Every sorted entry comes from the input, with its own line index. */
  lemma {:induction false} SortedFromInput(xs: seq<Entry>, j: nat)
    requires j < |SortEntries(xs)|
    ensures SortEntries(xs)[j] in xs
  {
    assert SortEntries(xs)[j] in multiset(SortEntries(xs));
  }

  /** `x` occurs in `s` somewhere before an occurrence of `y`. */
  predicate Precedes(s: seq<Entry>, x: Entry, y: Entry) {
    exists a, b :: 0 <= a < b < |s| && s[a] == x && s[b] == y
  }

  /** Where `Insert` puts `x`: after the leading entries whose key is at
      most its own. */
  function InsertIndex(s: seq<Entry>, x: Entry): (k: nat)
    ensures k <= |s|
  {
    if s == [] then 0
    else if KeyLe(s[0].1, x.1) then 1 + InsertIndex(s[1..], x)
    else 0
  }

  lemma {:induction false} InsertSplit(s: seq<Entry>, x: Entry)
    ensures var k := InsertIndex(s, x); Insert(s, x) == s[..k] + [x] + s[k..]
  {
    if s != [] && KeyLe(s[0].1, x.1) {
      InsertSplit(s[1..], x);
      var k := InsertIndex(s[1..], x);
      assert s[..k + 1] == [s[0]] + s[1..][..k];
      assert s[k + 1..] == s[1..][k..];
    }
  }

  /** In a sorted list, `x` goes after every entry whose key is at most
      its own. */
  lemma {:induction false} InsertIndexAfter(s: seq<Entry>, x: Entry, a: nat)
    requires Sorted(s) && a < |s| && KeyLe(s[a].1, x.1)
    ensures a < InsertIndex(s, x)
  {
    if !KeyLe(s[0].1, x.1) {
      assert a > 0;
      KeyLeTrans(s[0].1, s[a].1, x.1);
      assert false;
    }
    if a > 0 {
      assert Sorted(s[1..]);
      InsertIndexAfter(s[1..], x, a - 1);
    }
  }

  /** Inserting keeps the order of the entries already there. */
  lemma {:induction false} InsertKeepsOrder(s: seq<Entry>, x: Entry, a: nat, b: nat)
    requires a < b < |s|
    ensures Precedes(Insert(s, x), s[a], s[b])
  {
    var k := InsertIndex(s, x);
    InsertSplit(s, x);
    var r := Insert(s, x);
    var pa := if a < k then a else a + 1;
    var pb := if b < k then b else b + 1;
    assert r[pa] == s[a] && r[pb] == s[b];
  }

  /** In a sorted list, the inserted entry goes after every entry whose key
      is at most its own, those with an equal key included. */
  lemma {:induction false} InsertAfterSmaller(s: seq<Entry>, x: Entry, a: nat)
    requires Sorted(s) && a < |s| && KeyLe(s[a].1, x.1)
    ensures Precedes(Insert(s, x), s[a], x)
  {
    var k := InsertIndex(s, x);
    InsertSplit(s, x);
    InsertIndexAfter(s, x, a);
    var r := Insert(s, x);
    assert r[a] == s[a] && r[k] == x;
  }

  /** The sort is stable, as Python's `sorted` is: an entry whose key is at
      most that of a later entry stays before it. Entries with equal keys
      therefore keep their input order. */
  lemma {:induction false} SortEntriesStable(xs: seq<Entry>, i: nat, j: nat)
    requires i < j < |xs| && KeyLe(xs[i].1, xs[j].1)
    ensures Precedes(SortEntries(xs), xs[i], xs[j])
  {
    var init := xs[..|xs| - 1];
    if j < |xs| - 1 {
      SortEntriesStable(init, i, j);
      assert init[i] == xs[i] && init[j] == xs[j];
      StableEarlier(xs, xs[i], xs[j]);
    } else {
      StableLast(xs, i);
    }
  }

  /** Two entries already in order before the last one stay in order. */
  lemma {:induction false} StableEarlier(xs: seq<Entry>, u: Entry, v: Entry)
    requires xs != [] && Precedes(SortEntries(xs[..|xs| - 1]), u, v)
    ensures Precedes(SortEntries(xs), u, v)
  {
    SortStep(xs);
    StableStep(xs[..|xs| - 1], xs[|xs| - 1], u, v);
  }

  /** The last entry goes after every earlier one with a key at most its
      own. */
  lemma {:induction false} StableLast(xs: seq<Entry>, i: nat)
    requires i < |xs| - 1 && KeyLe(xs[i].1, xs[|xs| - 1].1)
    ensures Precedes(SortEntries(xs), xs[i], xs[|xs| - 1])
  {
    var init := xs[..|xs| - 1];
    SortStep(xs);
    assert init[i] == xs[i];
    InSorted(init, i);
    var sorted := SortEntries(init);
    var a :| 0 <= a < |sorted| && sorted[a] == xs[i];
    SortEntriesSorted(init);
    InsertAfterSmaller(sorted, xs[|xs| - 1], a);
  }

  /** The last step of the sort inserts the last entry. */
  lemma {:induction false} SortStep(xs: seq<Entry>)
    requires xs != []
    ensures SortEntries(xs) == Insert(SortEntries(xs[..|xs| - 1]), xs[|xs| - 1])
  {
  }

  /** Every input entry has a place in the sorted list. */
  lemma {:induction false} InSorted(xs: seq<Entry>, i: nat)
    requires i < |xs|
    ensures exists a :: 0 <= a < |SortEntries(xs)| && SortEntries(xs)[a] == xs[i]
  {
    assert xs[i] in multiset(SortEntries(xs));
  }

  /** An order already in the sorted prefix survives the next insertion. */
  lemma {:induction false} StableStep(init: seq<Entry>, x: Entry, u: Entry, v: Entry)
    requires Precedes(SortEntries(init), u, v)
    ensures Precedes(Insert(SortEntries(init), x), u, v)
  {
    var sorted := SortEntries(init);
    var a, b :| 0 <= a < b < |sorted| && sorted[a] == u && sorted[b] == v;
    InsertKeepsOrder(sorted, x, a, b);
  }

  // -----------------------------------------------------------------------
  // pages

  const PageSize: nat := 20

  function PageStart(page: nat): nat { page * PageSize }

  function PageEnd(page: nat): nat { PageStart(page) + PageSize }

  /** `xs[start:end]`, clamped as Python slices are. */
  function Chunk<T>(xs: seq<T>, page: nat): (c: seq<T>)
    ensures |c| <= PageSize
    ensures |c| > 0 ==> PageStart(page) + |c| <= |xs|
    ensures forall j :: 0 <= j < |c| ==> c[j] == xs[PageStart(page) + j]
    ensures |c| == PageSize || PageStart(page) + |c| >= |xs|
  {
    var start := PageStart(page);
    if start >= |xs| then []
    else if PageEnd(page) >= |xs| then xs[start..]
    else xs[start..PageEnd(page)]
  }

  /** A "previous" button exists iff the page does not start at the top. */
  predicate HasPrev(page: nat) { PageStart(page) > 0 }

  /** A "next" button exists iff the page ends before the last entry. */
  predicate HasNext(page: nat, total: nat) { PageEnd(page) < total }

  /** Entry k of the listing is shown on page k / 20, at position k % 20,
      numbered k + 1; it is shown on no other page. */
  lemma {:induction false} EntryPage<T>(xs: seq<T>, k: nat, page: nat)
    requires k < |xs|
    ensures var c := Chunk(xs, page);
            (PageStart(page) <= k < PageStart(page) + |c|) <==> page == k / PageSize
    ensures page == k / PageSize ==> Chunk(xs, page)[k % PageSize] == xs[k]
  {
    var c := Chunk(xs, page);
    var q := k / PageSize;
    assert k == q * PageSize + k % PageSize;
    if page < q {
      assert PageStart(page) + PageSize <= PageStart(q) by {
        assert page + 1 <= q;
        assert (page + 1) * PageSize <= q * PageSize;
      }
    } else if page > q {
      assert PageStart(q) + PageSize <= PageStart(page) by {
        assert q + 1 <= page;
        assert (q + 1) * PageSize <= page * PageSize;
      }
    }
  }

  /** "Next" is shown exactly when the next page is not empty, "previous"
      exactly when there is an earlier page. */
  lemma {:induction false} NavMatchesPages<T>(xs: seq<T>, page: nat)
    ensures HasNext(page, |xs|) <==> Chunk(xs, page + 1) != []
    ensures HasPrev(page) <==> page > 0
  {
    assert PageStart(page + 1) == PageEnd(page);
  }

  // -----------------------------------------------------------------------
  // numbered lines and buttons

  /** An inline button: its text and its callback data. */
  datatype Button = Button(text: string, data: string)

  /** `f"{i}. `{text}`"` */
  function NumberedLine(n: nat, text: string): string {
    NatToString(n) + ". `" + text + "`"
  }

  /** The lines of a page whose first entry is numbered `first`, each rule
      shown by `show`. */
  function NumberedLines(chunk: seq<Entry>, first: nat, show: Rule -> string): (r: seq<string>)
    ensures |r| == |chunk|
    ensures forall j :: 0 <= j < |chunk| ==> r[j] == NumberedLine(first + j, show(chunk[j].1))
  {
    if chunk == [] then []
    else NumberedLines(chunk[..|chunk| - 1], first, show) + [NumberedLine(first + |chunk| - 1, show(chunk[|chunk| - 1].1))]
  }

  lemma {:induction false} NumberedLinesSnoc(chunk: seq<Entry>, j: nat, first: nat, show: Rule -> string)
    requires j < |chunk|
    ensures NumberedLines(chunk[..j + 1], first, show) == NumberedLines(chunk[..j], first, show) + [NumberedLine(first + j, show(chunk[j].1))]
  {
    assert chunk[..j + 1][..j] == chunk[..j];
  }

  /** The loop `for i, (_, rule) in enumerate(chunk, start=first):
      lines.append(...)`. */
  method NumberLines(chunk: seq<Entry>, first: nat, show: Rule -> string) returns (lines: seq<string>)
    ensures lines == NumberedLines(chunk, first, show)
  {
    lines := [];
    for j := 0 to |chunk|
      invariant lines == NumberedLines(chunk[..j], first, show)
    {
      NumberedLinesSnoc(chunk, j, first, show);
      lines := lines + [NumberedLine(first + j, show(chunk[j].1))];
    }
    assert chunk[..|chunk|] == chunk;
  }
}
