/** The merge of search results: every room contributes a descending stream of event ids, and each
    round takes the greatest head. */
module SearchMerge {
  import opened Wrappers
  import opened Bytes

  ghost predicate Descending(s: seq<Bytes>) {
    forall i, j :: 0 <= i < j < |s| ==> LexLe(s[j], s[i])
  }

  ghost predicate AllDescending(streams: seq<seq<Bytes>>) {
    forall i :: 0 <= i < |streams| ==> Descending(streams[i])
  }

  ghost function Union(streams: seq<seq<Bytes>>): multiset<Bytes> {
    if streams == [] then multiset{} else multiset(streams[0]) + Union(streams[1..])
  }

  lemma {:induction false} UnionHas(streams: seq<seq<Bytes>>, x: Bytes)
    ensures x in Union(streams) <==> exists i :: 0 <= i < |streams| && x in streams[i]
  {
    if streams != [] {
      UnionHas(streams[1..], x);
      if exists i :: 0 <= i < |streams| && x in streams[i] {
        var i :| 0 <= i < |streams| && x in streams[i];
        if i > 0 { assert x in streams[1..][i - 1]; }
      }
      if x in Union(streams[1..]) {
        var i :| 0 <= i < |streams[1..]| && x in streams[1..][i];
        assert x in streams[i + 1];
      }
    }
  }

  /** Popping a head takes one copy of it out of the union. */
  lemma {:induction false} PopHead(streams: seq<seq<Bytes>>, i: nat)
    requires i < |streams| && streams[i] != []
    ensures Union(streams) == Union(streams[i := streams[i][1..]]) + multiset{streams[i][0]}
  {
    var popped := streams[i := streams[i][1..]];
    if i == 0 {
      assert streams[0] == [streams[0][0]] + streams[0][1..];
      assert popped[1..] == streams[1..];
    } else {
      PopHead(streams[1..], i - 1);
      assert popped[1..] == streams[1..][i - 1 := streams[i][1..]];
    }
  }

  // ---------- one round ----------

  /** None sorts below every element. */
  predicate PeekLe(a: Option<Bytes>, b: Option<Bytes>) {
    a.None? || (b.Some? && LexLe(a.value, b.value))
  }

  function Peek(s: seq<Bytes>): Option<Bytes> {
    if s == [] then None else Some(s[0])
  }

  /** The stream with the greatest head, the last of equals. */
  method PickMax(streams: seq<seq<Bytes>>) returns (best: nat)
    requires streams != []
    ensures best < |streams|
    ensures forall i :: 0 <= i < |streams| ==> PeekLe(Peek(streams[i]), Peek(streams[best]))
    ensures forall i :: best < i < |streams| ==> !PeekLe(Peek(streams[best]), Peek(streams[i]))
  {
    best := 0;
    LexReflAll();
    for i := 1 to |streams|
      invariant best < i
      invariant forall j :: 0 <= j < i ==> PeekLe(Peek(streams[j]), Peek(streams[best]))
      invariant forall j :: best < j < i ==> !PeekLe(Peek(streams[best]), Peek(streams[j]))
    {
      if PeekLe(Peek(streams[best]), Peek(streams[i])) {
        forall j | 0 <= j < i ensures PeekLe(Peek(streams[j]), Peek(streams[i])) {
          PeekTrans(Peek(streams[j]), Peek(streams[best]), Peek(streams[i]));
        }
        best := i;
      } else {
        PeekTotal(Peek(streams[best]), Peek(streams[i]));
      }
    }
  }

  lemma LexReflAll()
    ensures forall a: Bytes :: LexLe(a, a)
  {
    forall a: Bytes ensures LexLe(a, a) { LexRefl(a); }
  }

  lemma PeekTrans(a: Option<Bytes>, b: Option<Bytes>, c: Option<Bytes>)
    requires PeekLe(a, b) && PeekLe(b, c)
    ensures PeekLe(a, c)
  {
    if a.Some? { LexTrans(a.value, b.value, c.value); }
  }

  lemma PeekTotal(a: Option<Bytes>, b: Option<Bytes>)
    ensures PeekLe(a, b) || PeekLe(b, a)
  {
    if a.Some? && b.Some? { LexTotal(a.value, b.value); }
  }

  lemma HeadIsMax(streams: seq<seq<Bytes>>, best: nat, x: Bytes)
    requires AllDescending(streams) && best < |streams|
    requires forall i :: 0 <= i < |streams| ==> PeekLe(Peek(streams[i]), Peek(streams[best]))
    requires x in Union(streams)
    ensures streams[best] != [] && LexLe(x, streams[best][0])
  {
    UnionHas(streams, x);
    var i :| 0 <= i < |streams| && x in streams[i];
    var j :| 0 <= j < |streams[i]| && streams[i][j] == x;
    assert PeekLe(Peek(streams[i]), Peek(streams[best]));
    if j == 0 { LexRefl(x); }
    LexTrans(x, streams[i][0], streams[best][0]);
  }

  // ---------- the whole merge ----------

  /** `out` lists, in order, the `n` greatest of `m`, or all of it. */
  ghost predicate IsTop(m: multiset<Bytes>, n: nat, out: seq<Bytes>) {
    && Descending(out) && multiset(out) <= m
    && |out| == (if n <= |m| then n else |m|)
    && forall x, i :: x in m - multiset(out) && 0 <= i < |out| ==> LexLe(x, out[i])
  }

  /** What the merge has taken so far is at least everything it has left. */
  ghost predicate Split(all: multiset<Bytes>, out: seq<Bytes>, left: multiset<Bytes>) {
    && all == multiset(out) + left && Descending(out)
    && forall x, i :: x in left && 0 <= i < |out| ==> LexLe(x, out[i])
  }

  lemma SplitStep(all: multiset<Bytes>, out: seq<Bytes>, left: multiset<Bytes>, head: Bytes, less: multiset<Bytes>)
    requires Split(all, out, left) && left == less + multiset{head} && forall x :: x in less ==> LexLe(x, head)
    ensures Split(all, out + [head], less)
  {
    assert head in left;
    assert forall x :: x in less ==> x in left;
  }

  lemma TakeHead(all: multiset<Bytes>, out: seq<Bytes>, rest: seq<seq<Bytes>>, best: nat)
    requires Split(all, out, Union(rest)) && AllDescending(rest) && best < |rest| && rest[best] != []
    requires forall i :: 0 <= i < |rest| ==> PeekLe(Peek(rest[i]), Peek(rest[best]))
    ensures Split(all, out + [rest[best][0]], Union(rest[best := rest[best][1..]]))
  {
    var head, more := rest[best][0], rest[best := rest[best][1..]];
    PopHead(rest, best);
    forall x | x in Union(more) ensures LexLe(x, head) { HeadIsMax(rest, best, x); }
    SplitStep(all, out, Union(rest), head, Union(more));
  }

  lemma PoppedDescends(rest: seq<seq<Bytes>>, best: nat)
    requires AllDescending(rest) && best < |rest| && rest[best] != []
    ensures AllDescending(rest[best := rest[best][1..]])
  {
    assert Descending(rest[best]);
  }

  method Merge(streams: seq<seq<Bytes>>, rounds: nat) returns (out: seq<Bytes>)
    requires AllDescending(streams)
    ensures IsTop(Union(streams), rounds, out)
  {
    var rest := streams;
    out := [];
    ghost var all := Union(streams);
    for round := 0 to rounds
      invariant Split(all, out, Union(rest)) && AllDescending(rest)
      invariant |out| == if round <= |all| then round else |all|
    {
      if rest != [] {
        var best := PickMax(rest);
        if rest[best] != [] {
          TakeHead(all, out, rest, best);
          PoppedDescends(rest, best);
          out := out + [rest[best][0]];
          rest := rest[best := rest[best][1..]];
        } else {
          forall x ensures x !in Union(rest) {
            if x in Union(rest) { HeadIsMax(rest, best, x); }
          }
          assert Union(rest) == multiset{};
        }
      }
    }
    assert all - multiset(out) == Union(rest);
  }

  // ---------- there is only one such list ----------

  lemma TopHead(m: multiset<Bytes>, n: nat, out: seq<Bytes>, x: Bytes)
    requires IsTop(m, n, out) && out != [] && x in m
    ensures LexLe(x, out[0])
  {
    if x in multiset(out) {
      var i :| 0 <= i < |out| && out[i] == x;
      if i == 0 { LexRefl(x); }
    } else {
      assert x in m - multiset(out);
    }
  }

  lemma TopTail(m: multiset<Bytes>, n: nat, out: seq<Bytes>)
    requires IsTop(m, n, out) && out != []
    ensures n > 0 && IsTop(m - multiset{out[0]}, n - 1, out[1..])
  {
    assert out == [out[0]] + out[1..];
    assert multiset(out) == multiset{out[0]} + multiset(out[1..]);
    assert (m - multiset{out[0]}) - multiset(out[1..]) == m - multiset(out);
  }

  lemma SameHead(m: multiset<Bytes>, n: nat, a: seq<Bytes>, b: seq<Bytes>)
    requires IsTop(m, n, a) && IsTop(m, n, b)
    ensures |a| == |b| && (a != [] ==> a[0] == b[0])
  {
    hide LexLe;
    if a != [] {
      assert a[0] in multiset(a) && b[0] in multiset(b);
      TopHead(m, n, a, b[0]);
      TopHead(m, n, b, a[0]);
      LexAntisym(a[0], b[0]);
    }
  }

  /** The result does not depend on how the events are spread over the streams. */
  lemma {:induction false} TopUnique(m: multiset<Bytes>, n: nat, a: seq<Bytes>, b: seq<Bytes>)
    requires IsTop(m, n, a) && IsTop(m, n, b)
    ensures a == b
    decreases |a|
  {
    hide IsTop;
    SameHead(m, n, a, b);
    if a != [] {
      TopTail(m, n, a);
      TopTail(m, n, b);
      TopUnique(m - multiset{a[0]}, n - 1, a[1..], b[1..]);
      assert a == [a[0]] + a[1..] && b == [b[0]] + b[1..];
    }
  }

  function Take<T>(s: seq<T>, n: nat): seq<T> {
    if n <= |s| then s[..n] else s
  }

  lemma TakeIsTop(m: multiset<Bytes>, n: nat, all: seq<Bytes>)
    requires IsTop(m, |m|, all)
    ensures IsTop(m, n, Take(all, n))
  {
    hide LexLe;
    var short := Take(all, n);
    var rest := all[|short|..];
    assert all == short + rest;
    FullTop(m, all);
    assert m == multiset(short) + multiset(rest);
    forall x, i | x in m - multiset(short) && 0 <= i < |short| ensures LexLe(x, short[i]) {
      assert x in multiset(rest);
      var j :| 0 <= j < |rest| && rest[j] == x;
      assert all[|short| + j] == x;
    }
  }

  /** Fewer rounds give the beginning of what more rounds give. */
  lemma TopPrefix(m: multiset<Bytes>, n: nat, out: seq<Bytes>, all: seq<Bytes>)
    requires IsTop(m, n, out) && IsTop(m, |m|, all)
    ensures out == Take(all, n)
  {
    TakeIsTop(m, n, all);
    TopUnique(m, n, out, Take(all, n));
  }

  lemma FullTop(m: multiset<Bytes>, all: seq<Bytes>)
    requires multiset(all) <= m && |all| == |m|
    ensures multiset(all) == m
  {
    assert m == multiset(all) + (m - multiset(all));
  }

  lemma {:induction false} MaxExists(m: multiset<Bytes>) returns (x: Bytes)
    requires m != multiset{}
    ensures x in m && forall y :: y in m ==> LexLe(y, x)
    decreases |m|
  {
    x :| x in m;
    var rest := m - multiset{x};
    if rest == multiset{} {
      forall y | y in m ensures LexLe(y, x) { assert y == x || y in rest; LexRefl(x); }
    } else {
      var z := MaxExists(rest);
      LexTotal(x, z);
      var top := if LexLe(x, z) then z else x;
      forall y | y in m ensures LexLe(y, top) {
        LexRefl(x);
        assert y == x || y in rest;
        if y in rest && top == x { LexTrans(y, z, x); }
      }
      x := top;
    }
  }

  /** Every multiset can be listed in descending order. */
  lemma {:induction false} TopExists(m: multiset<Bytes>) returns (all: seq<Bytes>)
    ensures Descending(all) && multiset(all) == m
    decreases |m|
  {
    if m == multiset{} {
      all := [];
    } else {
      var x := MaxExists(m);
      var rest := TopExists(m - multiset{x});
      all := [x] + rest;
      assert multiset(all) == multiset{x} + multiset(rest);
      forall j | 0 <= j < |rest| ensures LexLe(rest[j], x) { assert rest[j] in multiset(rest); }
    }
  }

  lemma ListIsTop(m: multiset<Bytes>, all: seq<Bytes>)
    requires Descending(all) && multiset(all) == m
    ensures IsTop(m, |m|, all)
  {
    assert |multiset(all)| == |all|;
  }
}
