/** Rows of emitted texts: what they leave in a buffer with an end, compared with what they leave without one. */
module Emission {
  const NUL := '\0'

  /** A piece of output: its text, the text it has instead when the character at offset, its sign, is not
      stored because it lies past the end, and that offset. */
  datatype Item = Item(full: string, cut: string, offset: nat)

  /** An item that is the same wherever it is put. */
  function Fixed(t: string): Item {
    Item(t, t, 0)
  }

  /** The two texts differ only behind the offset, and the second may be longer by one character. */
  ghost predicate Sound(it: Item) {
    && it.offset <= |it.full| && it.offset <= |it.cut| && it.full[..it.offset] == it.cut[..it.offset]
    && |it.full| <= |it.cut| <= |it.full| + 1
  }

  ghost predicate AllSound(items: seq<Item>) {
    forall i :: 0 <= i < |items| ==> Sound(items[i])
  }

  /** The text of an item put at position pos of a buffer whose last cell is end. */
  function TextAt(it: Item, pos: nat, end: nat): string {
    if pos + it.offset > end then it.cut else it.full
  }

  /** The text of the items, emitted from position pos on. */
  function Emit(items: seq<Item>, pos: nat, end: nat): string {
    if items == [] then "" else
      var t := TextAt(items[0], pos, end);
      t + Emit(items[1..], pos + |t|, end)
  }

  /** The text of the items with no end in sight. */
  function EmitAll(items: seq<Item>): string {
    if items == [] then "" else items[0].full + EmitAll(items[1..])
  }

  /** How many items have become longer because their sign lies past the end. */
  function Dropped(items: seq<Item>, pos: nat, end: nat): nat {
    if items == [] then 0 else
      var t := TextAt(items[0], pos, end);
      (if |t| > |items[0].full| then 1 else 0) + Dropped(items[1..], pos + |t|, end)
  }

  /** t and u are the same as far as the first n characters go. */
  ghost predicate Agree(t: string, u: string, n: int) {
    && (|t| < n || |u| < n ==> |t| == |u|)
    && (forall j :: 0 <= j < n && j < |t| && j < |u| ==> t[j] == u[j])
  }

  lemma AgreeBehind(a: string, t: string, u: string, n: int)
    requires Agree(t, u, n - |a|)
    ensures Agree(a + t, a + u, n)
  {
  }

  lemma AgreeBefore(a: string, b: string, t: string, u: string, n: int, k: nat)
    requires k <= |a| && k <= |b| && a[..k] == b[..k] && n <= k
    ensures Agree(a + t, b + u, n)
  {
    forall j | 0 <= j < n
      ensures (a + t)[j] == (b + u)[j]
    {
      assert a[j] == a[..k][j] && b[j] == b[..k][j];
    }
  }

  /** Up to the end the text against an end is the full text, and each dropped sign makes it one longer. */
  lemma {:induction false} EmitAgrees(items: seq<Item>, pos: nat, end: nat)
    requires AllSound(items)
    ensures Agree(Emit(items, pos, end), EmitAll(items), end + 1 - pos)
    ensures |Emit(items, pos, end)| == |EmitAll(items)| + Dropped(items, pos, end)
    decreases |items|
  {
    if items != [] {
      var it, t := items[0], TextAt(items[0], pos, end);
      var x, y := Emit(items[1..], pos + |t|, end), EmitAll(items[1..]);
      EmitAgrees(items[1..], pos + |t|, end);
      if pos + it.offset > end {
        AgreeBefore(t, it.full, x, y, end + 1 - pos, it.offset);
      } else {
        AgreeBehind(t, x, y, end + 1 - pos);
      }
    }
  }

  /** The items whose signs lie past the end of the full text and that are longer without them. */
  function Lost(items: seq<Item>, pos: nat, end: nat): nat {
    if items == [] then 0 else
      var it := items[0];
      (if pos + it.offset > end && |it.cut| > |it.full| then 1 else 0) + Lost(items[1..], pos + |it.full|, end)
  }

  /** Item i is longer without its sign, and the full text in front of it puts the sign past the end. */
  predicate LostAt(items: seq<Item>, i: nat, pos: nat, end: nat)
    requires i < |items|
  {
    |items[i].cut| > |items[i].full| && pos + |EmitAll(items[..i])| + items[i].offset > end
  }

  lemma LostTail(items: seq<Item>, i: nat, pos: nat, end: nat)
    requires 0 < i < |items|
    ensures LostAt(items, i, pos, end) <==> LostAt(items[1..], i - 1, pos + |items[0].full|, end)
  {
    assert items[..i][1..] == items[1..][..i - 1];
  }

  /** None is lost exactly when no item is of that kind. */
  lemma {:induction false} LostMeans(items: seq<Item>, pos: nat, end: nat)
    ensures Lost(items, pos, end) == 0 <==> forall i :: 0 <= i < |items| ==> !LostAt(items, i, pos, end)
    decreases |items|
  {
    if items != [] {
      var next := pos + |items[0].full|;
      LostMeans(items[1..], next, end);
      assert LostAt(items, 0, pos, end) <==> pos + items[0].offset > end && |items[0].cut| > |items[0].full|;
      forall i | 0 < i < |items|
        ensures LostAt(items, i, pos, end) <==> LostAt(items[1..], i - 1, next, end)
      {
        LostTail(items, i, pos, end);
      }
      if Lost(items[1..], next, end) > 0 {
        var j :| 0 <= j < |items| - 1 && LostAt(items[1..], j, next, end);
        assert LostAt(items, j + 1, pos, end);
      }
    }
  }

  /** Past the end every sign is lost, wherever it is. */
  lemma {:induction false} LostBehind(items: seq<Item>, pos: nat, end: nat)
    requires pos > end
    ensures Lost(items, pos + 1, end) == Lost(items, pos, end)
  {
    if items != [] {
      LostBehind(items[1..], pos + |items[0].full|, end);
    }
  }

  /** The signs that the bounded emission drops are those that lie past the end of the full text: emission goes astray
      only where every later sign is past the end as well. */
  lemma {:induction false} DroppedAreLost(items: seq<Item>, pos: nat, end: nat)
    requires AllSound(items)
    ensures Dropped(items, pos, end) == Lost(items, pos, end)
    decreases |items|
  {
    if items != [] {
      var it, t := items[0], TextAt(items[0], pos, end);
      DroppedAreLost(items[1..], pos + |t|, end);
      if |t| > |it.full| {
        LostBehind(items[1..], pos + |it.full|, end);
      }
    }
  }

  // ----- buffers

  /** The buffer after the text t has been emitted at pos; cells past the end are not written. */
  function Blit(b: seq<char>, pos: nat, t: string, end: nat): (r: seq<char>)
    ensures |r| == |b|
  {
    seq(|b|, i requires 0 <= i < |b| => if pos <= i < pos + |t| && i <= end then t[i - pos] else b[i])
  }

  /** The terminating zero goes behind the text, or to the end when the text has passed it. */
  function Terminated(b: seq<char>, len: nat, end: nat): (r: seq<char>)
    requires end < |b|
    ensures |r| == |b|
  {
    b[if len <= end then len else end := NUL]
  }

  /** The memory from the buffer on after a call that prints the items against the given end. */
  function Printed(b: seq<char>, items: seq<Item>, end: nat): (r: seq<char>)
    requires end < |b|
    ensures |r| == |b|
  {
    var t := Emit(items, 0, end);
    Terminated(Blit(b, 0, t, end), |t|, end)
  }

  function Min(a: nat, b: nat): nat {
    if a < b then a else b
  }

  lemma PrefixLeft(b: seq<char>, t: string, u: string, end: nat)
    requires end < |b| && Agree(t, u, end + 1) && |u| <= |t|
    ensures var r := Terminated(Blit(b, 0, t, end), |t|, end);
            var n := Min(|u|, end);
            r[..n] == u[..n] && r[n] == NUL && r[n + 1..] == b[n + 1..]
  {
    assert |u| <= end ==> |t| == |u|;
  }

  /** Bounded printing is a prefix of unbounded printing: with u the text of the unbounded call and size cells,
      the buffer starts with the first min(|u|, size - 1) characters of u and a zero, everything else is as before,
      and the length is that of u plus the number of dropped signs. */
  lemma BoundedIsPrefix(b: seq<char>, items: seq<Item>, size: nat)
    requires AllSound(items) && 1 <= size <= |b|
    ensures var u, r := EmitAll(items), Printed(b, items, size - 1);
            var n := Min(|u|, size - 1);
            && r[..n] == u[..n] && r[n] == NUL
            && r[n + 1..] == b[n + 1..]
    ensures |Emit(items, 0, size - 1)| == |EmitAll(items)| + Dropped(items, 0, size - 1)
  {
    EmitAgrees(items, 0, size - 1);
    PrefixLeft(b, Emit(items, 0, size - 1), EmitAll(items), size - 1);
  }

  /** The length is the full one and one more for each lost sign; none is lost when the text fits. */
  lemma ReturnedLength(items: seq<Item>, size: nat)
    requires AllSound(items) && 1 <= size
    ensures |Emit(items, 0, size - 1)| == |EmitAll(items)| + Lost(items, 0, size - 1)
    ensures |EmitAll(items)| < size ==> Lost(items, 0, size - 1) == 0
  {
    EmitAgrees(items, 0, size - 1);
    DroppedAreLost(items, 0, size - 1);
  }

  lemma WholeText(u: string, r: seq<char>, b: seq<char>)
    requires |u| < |r| == |b| && r[..Min(|u|, |b| - 1)] == u[..Min(|u|, |b| - 1)]
    ensures r[..|u|] == u
  {
    assert u[..|u|] == u;
  }

  /** With the whole memory b as limit nothing is cut: the text and its zero, and the rest of memory. */
  lemma UnboundedPrints(b: seq<char>, items: seq<Item>)
    requires AllSound(items) && |EmitAll(items)| < |b|
    ensures var u, r := EmitAll(items), Printed(b, items, |b| - 1);
            r[..|u|] == u && r[|u|] == NUL && r[|u| + 1..] == b[|u| + 1..]
  {
    BoundedIsPrefix(b, items, |b|);
    WholeText(EmitAll(items), Printed(b, items, |b| - 1), b);
  }

  lemma SameFront(r: string, u: string, n: nat)
    requires n <= |u| <= |r| && r[..|u|] == u
    ensures r[..n] == u[..n]
  {
    assert r[..n] == r[..|u|][..n];
  }

  /** What size cells hold is what the unbounded call leaves in its first cells, cut behind size - 1 characters. */
  lemma PrefixOfUnbounded(b: seq<char>, items: seq<Item>, size: nat, n: nat)
    requires AllSound(items) && 1 <= size <= |b| && |EmitAll(items)| < |b|
    requires n == Min(|EmitAll(items)|, size - 1)
    ensures Printed(b, items, size - 1)[..n] == Printed(b, items, |b| - 1)[..n]
  {
    BoundedIsPrefix(b, items, size);
    UnboundedPrints(b, items);
    SameFront(Printed(b, items, |b| - 1), EmitAll(items), n);
  }
}
