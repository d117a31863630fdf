/** Intersection of sorted streams with cursors that only move forward. */
module CommonElements {
  import opened Wrappers
  import opened Bytes

  datatype Ordering = Less | Equal | Greater

  type Order = (Bytes, Bytes) -> Ordering

  /** The comparison is a total preorder; different elements may compare as equal. */
  ghost predicate Lawful(ord: Order) {
    && (forall a, b :: ord(a, b) == Less <==> ord(b, a) == Greater)
    && (forall a, b, c :: ord(a, b) != Greater && ord(b, c) != Greater ==> ord(a, c) != Greater)
  }

  ghost predicate Sorted(ord: Order, s: seq<Bytes>) {
    forall i, j :: 0 <= i < j < |s| ==> ord(s[i], s[j]) != Greater
  }

  ghost predicate Contains(ord: Order, s: seq<Bytes>, target: Bytes) {
    exists e :: e in s && ord(e, target) == Equal
  }

  ghost predicate InAll(ord: Order, others: seq<seq<Bytes>>, target: Bytes) {
    forall i :: 0 <= i < |others| ==> Contains(ord, others[i], target)
  }

  /** The elements of the first stream that have an equal element in every other stream. */
  ghost function Common(ord: Order, first: seq<Bytes>, others: seq<seq<Bytes>>): seq<Bytes> {
    if first == [] then []
    else
      var last := first[|first| - 1];
      Common(ord, first[..|first| - 1], others) + if InAll(ord, others, last) then [last] else []
  }

  lemma StaysLess(ord: Order, e: Bytes, x: Bytes, y: Bytes)
    requires Lawful(ord) && ord(e, x) == Less && ord(x, y) != Greater
    ensures ord(e, y) == Less
  {
    assert ord(e, y) != Greater;
    assert ord(y, e) != Greater ==> ord(x, e) != Greater;
  }

  /** Everything before the cursor is too small for the target and for all later ones. */
  ghost predicate Passed(ord: Order, s: seq<Bytes>, pos: nat, target: Bytes) {
    pos <= |s| && forall j :: 0 <= j < pos ==> ord(s[j], target) == Less
  }

  lemma PassedStays(ord: Order, s: seq<Bytes>, pos: nat, x: Bytes, y: Bytes)
    requires Lawful(ord) && Passed(ord, s, pos, x) && ord(x, y) != Greater
    ensures Passed(ord, s, pos, y)
  {
    forall j | 0 <= j < pos ensures ord(s[j], y) == Less { StaysLess(ord, s[j], x, y); }
  }

  lemma TooFar(ord: Order, s: seq<Bytes>, pos: nat, target: Bytes)
    requires Lawful(ord) && Sorted(ord, s) && Passed(ord, s, pos, target)
    requires pos < |s| ==> ord(s[pos], target) == Greater
    ensures !Contains(ord, s, target)
  {
    forall j | 0 <= j < |s| ensures ord(s[j], target) != Equal {
      if pos < j {
        assert ord(s[pos], s[j]) != Greater;
        StaysLess(ord, target, s[pos], s[j]);
      }
    }
  }

  /** Moves one cursor up to the target; it stays on an equal element. */
  method Advance(ord: Order, s: seq<Bytes>, start: nat, target: Bytes) returns (pos: nat, found: bool)
    requires Lawful(ord) && Sorted(ord, s) && Passed(ord, s, start, target)
    ensures Passed(ord, s, pos, target)
    ensures found <==> Contains(ord, s, target)
  {
    pos := start;
    while pos < |s|
      invariant Passed(ord, s, pos, target)
    {
      match ord(s[pos], target)
      case Greater =>
        TooFar(ord, s, pos, target);
        return pos, false;
      case Equal =>
        assert s[pos] in s;
        return pos, true;
      case Less => pos := pos + 1;
    }
    TooFar(ord, s, pos, target);
    return pos, false;
  }

  ghost predicate AllPassed(ord: Order, others: seq<seq<Bytes>>, pos: seq<nat>, target: Bytes) {
    |pos| == |others| && forall i :: 0 <= i < |others| ==> Passed(ord, others[i], pos[i], target)
  }

  ghost predicate AllSorted(ord: Order, streams: seq<seq<Bytes>>) {
    forall i :: 0 <= i < |streams| ==> Sorted(ord, streams[i])
  }

  /** Stops at the first stream without the target; the cursors behind it do not move. */
  method InEvery(ord: Order, others: seq<seq<Bytes>>, start: seq<nat>, target: Bytes)
    returns (pos: seq<nat>, all: bool)
    requires Lawful(ord) && AllSorted(ord, others) && AllPassed(ord, others, start, target)
    ensures AllPassed(ord, others, pos, target)
    ensures all <==> InAll(ord, others, target)
  {
    pos := start;
    for i := 0 to |others|
      invariant AllPassed(ord, others, pos, target)
      invariant forall j :: 0 <= j < i ==> Contains(ord, others[j], target)
    {
      var p, found := Advance(ord, others[i], pos[i], target);
      pos := pos[i := p];
      if !found { return pos, false; }
    }
    return pos, true;
  }

  /** Exact although cursors persist from one element to the next and are moved lazily. */
  method Intersect(ord: Order, streams: seq<seq<Bytes>>) returns (r: Option<seq<Bytes>>)
    requires Lawful(ord) && AllSorted(ord, streams)
    ensures r == if streams == [] then None else Some(Common(ord, streams[0], streams[1..]))
  {
    if streams == [] { return None; }
    var first, others := streams[0], streams[1..];
    var pos := seq(|others|, i => 0);
    var kept := [];
    for t := 0 to |first|
      invariant t < |first| ==> AllPassed(ord, others, pos, first[t])
      invariant kept == Common(ord, first[..t], others)
    {
      var all;
      pos, all := InEvery(ord, others, pos, first[t]);
      if all { kept := kept + [first[t]]; }
      assert first[..t + 1][..t] == first[..t];
      if t + 1 < |first| {
        assert ord(first[t], first[t + 1]) != Greater;
        forall i | 0 <= i < |others| ensures Passed(ord, others[i], pos[i], first[t + 1]) {
          PassedStays(ord, others[i], pos[i], first[t], first[t + 1]);
        }
      }
    }
    assert first[..|first|] == first;
    return Some(kept);
  }

  /** What is kept is exactly what has an equal in every other stream. */
  lemma {:induction false} CommonIs(ord: Order, first: seq<Bytes>, others: seq<seq<Bytes>>, x: Bytes)
    ensures x in Common(ord, first, others) <==> x in first && InAll(ord, others, x)
    decreases |first|
  {
    if first != [] {
      var n := |first| - 1;
      CommonIs(ord, first[..n], others, x);
      assert first == first[..n] + [first[n]];
    }
  }
}
