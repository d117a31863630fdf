/** Positions of events in a room and the database keys that carry them. */
module PduIds {
  import opened Wrappers
  import opened Bytes

  /** Backfilled events precede all others, and the later one was backfilled the earlier it is. */
  datatype PduCount = Backfilled(n: U64) | Normal(n: U64)

  predicate Less(a: PduCount, b: PduCount) {
    match (a, b)
    case (Normal(m), Normal(n)) => m < n
    case (Backfilled(m), Backfilled(n)) => n < m
    case (Backfilled(_), Normal(_)) => true
    case (Normal(_), Backfilled(_)) => false
  }

  predicate AtMost(a: PduCount, b: PduCount) {
    a == b || Less(a, b)
  }

  function PduId(short: U64, c: PduCount): Bytes {
    match c
    case Normal(n) => Be64(short) + Be64(n)
    case Backfilled(n) => Be64(short) + (Be64(0) + Be64(U64_MAX - n))
  }

  /** The count is read off the end of the key: a zero before the last number marks a backfilled
      event. */
  function CountOfId(id: Bytes): Option<PduCount>
    requires |id| >= 16
  {
    var last := U64FromBytes(id[|id| - 8..]);
    if last.None? then None
    else if U64FromBytes(id[|id| - 16..|id| - 8]) == Some(0) then Some(Backfilled(U64_MAX - last.value))
    else Some(Normal(last.value))
  }

  lemma TailNumbers(front: Bytes, m: U64, n: U64)
    ensures var id := front + Be64(m) + Be64(n);
            && U64FromBytes(id[|id| - 8..]) == Some(n)
            && U64FromBytes(id[|id| - 16..|id| - 8]) == Some(m)
  {
    var id := front + Be64(m) + Be64(n);
    assert id[|id| - 8..] == Be64(n) && id[|id| - 16..|id| - 8] == Be64(m);
    U64RoundTrip(m);
    U64RoundTrip(n);
  }

  lemma TailOfPduId(short: U64, c: PduCount)
    ensures var id := PduId(short, c);
            && |id| >= 16
            && U64FromBytes(id[|id| - 8..]) == Some(if c.Normal? then c.n else U64_MAX - c.n)
            && U64FromBytes(id[|id| - 16..|id| - 8]) == Some(if c.Normal? then short else 0)
  {
    var front: Bytes := if c.Normal? then [] else Be64(short);
    var m: U64 := if c.Normal? then short else 0;
    var n: U64 := if c.Normal? then c.n else U64_MAX - c.n;
    assert PduId(short, c) == front + Be64(m) + Be64(n);
    TailNumbers(front, m, n);
  }

  /** Every key gives its count back, unless the room has number 0 and the event is not
      backfilled. */
  lemma CountOfPduId(short: U64, c: PduCount)
    ensures |PduId(short, c)| >= 16
    ensures CountOfId(PduId(short, c)) == Some(c) <==> short != 0 || c.Backfilled?
  {
    TailOfPduId(short, c);
  }

  /** Keys of one room are stored in the order of their counts; the exception is a normal event
      with count 0, a count that is never handed out. */
  lemma PduIdOrder(short: U64, a: PduCount, b: PduCount)
    ensures (LexLe(PduId(short, a), PduId(short, b)) <==> AtMost(a, b))
            <==> !(a == Normal(0) && b.Backfilled?) && !(b == Normal(0) && a.Backfilled?)
  {
    match (a, b)
    case (Normal(m), Normal(n)) =>
      LexCommonPrefix(Be64(short), Be64(m), Be64(n));
      Be64Order(m, n);
    case (Backfilled(m), Backfilled(n)) =>
      LexCommonPrefix(Be64(short), Be64(0) + Be64(U64_MAX - m), Be64(0) + Be64(U64_MAX - n));
      LexCommonPrefix(Be64(0), Be64(U64_MAX - m), Be64(U64_MAX - n));
      Be64Order(U64_MAX - m, U64_MAX - n);
    case (Backfilled(m), Normal(n)) =>
      LexCommonPrefix(Be64(short), Be64(0) + Be64(U64_MAX - m), Be64(n));
      ZeroFirst(U64_MAX - m, n);
    case (Normal(m), Backfilled(n)) =>
      LexCommonPrefix(Be64(short), Be64(m), Be64(0) + Be64(U64_MAX - n));
      ZeroFirst(U64_MAX - n, m);
  }

  lemma ZeroFirst(x: U64, n: U64)
    ensures LexLe(Be64(0) + Be64(x), Be64(n)) <==> n != 0
    ensures LexLe(Be64(n), Be64(0) + Be64(x)) <==> n == 0
  {
    if n == 0 {
      PrefixLe(Be64(0), Be64(0) + Be64(x));
      if LexLe(Be64(0) + Be64(x), Be64(0)) { LexAntisym(Be64(0) + Be64(x), Be64(0)); }
    } else {
      Be64Order(0, n);
      Be64Order(n, 0);
      LexHeads(Be64(0), Be64(x), Be64(n), []);
      LexHeads(Be64(n), [], Be64(0), Be64(x));
      assert Be64(n) + [] == Be64(n);
    }
  }
}
