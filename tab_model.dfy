/**
 * The records the new-tab page stores (a tab with its id, title and ordered links) and the
 * array operations its handlers apply to the list of tabs: `findIndex`/`find` and `some` by
 * id, `filter` by id, and the two `splice` forms the drag-reorder uses.
 */
module TabModel {

  /** A link card: identified only by its position in its tab. */
  datatype Link = Link(title: string, url: string)

  /** A custom tab. */
  datatype Tab = Tab(id: string, title: string, links: seq<Link>)

  /** `tabs.some(t => t.id === id)`: some tab of the list, wherever it is, has that id. */
  predicate HasTab(tabs: seq<Tab>, id: string): (b: bool)
    ensures b <==> exists t :: t in tabs && t.id == id
  {
    exists k :: 0 <= k < |tabs| && tabs[k].id == id
  }

  /** `tabs.findIndex(t => t.id === id)`: the first index holding that id, or -1. */
  function FindIndex(tabs: seq<Tab>, id: string): (r: int)
    ensures -1 <= r < |tabs|
    ensures r >= 0 ==> tabs[r].id == id && forall k :: 0 <= k < r ==> tabs[k].id != id
    ensures r == -1 <==> !HasTab(tabs, id)
  {
    if tabs == [] then -1
    else if tabs[0].id == id then 0
    else
      var i := FindIndex(tabs[1..], id);
      assert forall k :: 1 <= k < |tabs| ==> tabs[k] == tabs[1..][k - 1];
      if i == -1 then -1 else i + 1
  }

  /** `tabs.filter(t => t.id !== id)`: every tab without that id, in the original order. */
  function WithoutId(tabs: seq<Tab>, id: string): (r: seq<Tab>)
    ensures |r| <= |tabs|
    ensures forall t :: t in r <==> t in tabs && t.id != id
    ensures !HasTab(tabs, id) ==> r == tabs
  {
    if tabs == [] then []
    else
      var rest := WithoutId(tabs[1..], id);
      assert tabs == [tabs[0]] + tabs[1..];
      assert forall t :: t in tabs <==> t == tabs[0] || t in tabs[1..];
      if tabs[0].id == id then
        assert HasTab(tabs, id) by { assert tabs[0] in tabs; }
        rest
      else
        assert HasTab(tabs[1..], id) ==> HasTab(tabs, id);
        [tabs[0]] + rest
  }

  /** Filtering distributes over concatenation, which is why it keeps the survivors' order. */
  lemma {:induction false} WithoutIdAppend(a: seq<Tab>, b: seq<Tab>, id: string)
    ensures WithoutId(a + b, id) == WithoutId(a, id) + WithoutId(b, id)
  {
    if a == [] {
      assert a + b == b;
    } else {
      assert (a + b)[1..] == a[1..] + b;
      WithoutIdAppend(a[1..], b, id);
    }
  }

  /** Tabs of the other ids survive the filter: some tab has id `other` after it iff before. */
  lemma WithoutIdKeepsOtherIds(tabs: seq<Tab>, id: string, other: string)
    requires other != id
    ensures HasTab(WithoutId(tabs, id), other) <==> HasTab(tabs, other)
  {
    SameElementsSameIds(WithoutId(tabs, id), tabs, other);
  }

  /** No tab with the filtered id is left. */
  lemma WithoutIdRemovesId(tabs: seq<Tab>, id: string)
    ensures !HasTab(WithoutId(tabs, id), id)
  {
    var r := WithoutId(tabs, id);
    forall k | 0 <= k < |r| ensures r[k].id != id {
      assert r[k] in r;
    }
  }

  /** Two tab lists holding the same tab records (in whatever order) hold the same ids. */
  lemma SameElementsSameIds(a: seq<Tab>, b: seq<Tab>, id: string)
    requires forall t :: t in a && t.id == id ==> t in b
    requires forall t :: t in b && t.id == id ==> t in a
    ensures HasTab(a, id) <==> HasTab(b, id)
  {
    if HasTab(a, id) {
      var k :| 0 <= k < |a| && a[k].id == id;
      assert a[k] in a;
      var j :| 0 <= j < |b| && b[j] == a[k];
    }
    if HasTab(b, id) {
      var k :| 0 <= k < |b| && b[k].id == id;
      assert b[k] in b;
      var j :| 0 <= j < |a| && a[j] == b[k];
    }
  }

  /** `s.splice(i, 1)`: the element at `i` taken out, the later ones shifted left. */
  function RemoveAt<T>(s: seq<T>, i: nat): (r: seq<T>)
    requires i < |s|
    ensures |r| == |s| - 1
    ensures forall k :: 0 <= k < i ==> r[k] == s[k]
    ensures forall k :: i <= k < |r| ==> r[k] == s[k + 1]
    ensures multiset(r) + multiset{s[i]} == multiset(s)
  {
    assert s == s[..i] + [s[i]] + s[i + 1..];
    s[..i] + s[i + 1..]
  }

  /** `s.splice(i, 0, x)`: `x` put in before index `i`, the later ones shifted right. */
  function InsertAt<T>(s: seq<T>, i: nat, x: T): (r: seq<T>)
    requires i <= |s|
    ensures |r| == |s| + 1 && r[i] == x
    ensures forall k :: 0 <= k < i ==> r[k] == s[k]
    ensures forall k :: i < k < |r| ==> r[k] == s[k - 1]
    ensures multiset(r) == multiset(s) + multiset{x}
  {
    assert s == s[..i] + s[i..];
    s[..i] + [x] + s[i..]
  }

  /** Putting back what was taken out, where it was, restores the sequence. */
  lemma InsertRemoved<T>(s: seq<T>, i: nat)
    requires i < |s|
    ensures InsertAt(RemoveAt(s, i), i, s[i]) == s
  {
  }

  /**
   * The drop handler's reorder: `tabs.splice(from, 1)` then `splice(to, 0, moved)`, with
   * `to` the target's index taken BEFORE the removal. The result holds the same tabs, the
   * moved tab stands exactly at the target's old index, and with it taken out again the
   * others are in their old order.
   */
  function Move(tabs: seq<Tab>, from: nat, to: nat): (r: seq<Tab>)
    requires from < |tabs| && to < |tabs|
    ensures |r| == |tabs|
    ensures multiset(r) == multiset(tabs)
    ensures r[to] == tabs[from]
    ensures RemoveAt(r, to) == RemoveAt(tabs, from)
  {
    var rest := RemoveAt(tabs, from);
    var r := InsertAt(rest, to, tabs[from]);
    assert RemoveAt(r, to) == rest;
    r
  }

  /**
   * Where every tab lands: outside the span between `from` and `to` nothing moves; inside it
   * the tabs shift by one towards `from`'s old place (remove-then-insert, not a swap).
   */
  lemma MovePositions(tabs: seq<Tab>, from: nat, to: nat, k: nat)
    requires from < |tabs| && to < |tabs| && k < |tabs|
    ensures (k < from && k < to) || (k > from && k > to) ==> Move(tabs, from, to)[k] == tabs[k]
    ensures from < to && from <= k < to ==> Move(tabs, from, to)[k] == tabs[k + 1]
    ensures to < from && to < k <= from ==> Move(tabs, from, to)[k] == tabs[k - 1]
  {
  }

  /** Dragging the moved tab back onto its old place undoes the reorder. */
  lemma MoveUndo(tabs: seq<Tab>, from: nat, to: nat)
    requires from < |tabs| && to < |tabs|
    ensures Move(Move(tabs, from, to), to, from) == tabs
  {
    var r := Move(tabs, from, to);
    assert Move(r, to, from) == InsertAt(RemoveAt(tabs, from), from, tabs[from]);
    InsertRemoved(tabs, from);
  }

  /** A reorder neither adds nor loses an id. */
  lemma MoveKeepsIds(tabs: seq<Tab>, from: nat, to: nat, id: string)
    requires from < |tabs| && to < |tabs|
    ensures HasTab(Move(tabs, from, to), id) <==> HasTab(tabs, id)
  {
    var r := Move(tabs, from, to);
    assert forall t :: t in r <==> t in multiset(r);
    assert forall t :: t in tabs <==> t in multiset(tabs);
    SameElementsSameIds(r, tabs, id);
  }
}
