/** Search results are handed out in pages. Each request takes the merged results up to its page again,
    drops what the user may not see, and then skips and takes. */
module SearchPages {
  import opened Wrappers
  import opened Bytes
  import opened SearchMerge
  import R = Radix

  function Shown(visible: Bytes -> bool, ids: seq<Bytes>): (r: seq<Bytes>)
    ensures |r| <= |ids|
  {
    if ids == [] then []
    else Shown(visible, ids[..|ids| - 1]) + if visible(ids[|ids| - 1]) then [ids[|ids| - 1]] else []
  }

  function Drop(s: seq<Bytes>, n: nat): seq<Bytes> {
    if n <= |s| then s[n..] else []
  }

  function PageOf(merged: seq<Bytes>, visible: Bytes -> bool, skip: nat, limit: nat): seq<Bytes> {
    Take(Drop(Shown(visible, merged), skip), limit)
  }

  method KeepVisible(visible: Bytes -> bool, ids: seq<Bytes>) returns (r: seq<Bytes>)
    ensures r == Shown(visible, ids)
  {
    r := [];
    for i := 0 to |ids|
      invariant r == Shown(visible, ids[..i])
    {
      assert ids[..i + 1][..i] == ids[..i];
      if visible(ids[i]) { r := r + [ids[i]]; }
    }
    assert ids[..|ids|] == ids;
  }

  /** One page, and the token of the next if this page is full. `all` is the whole merge of the
      streams, of which the request only computes the beginning. */
  method SearchEvents(streams: seq<seq<Bytes>>, visible: Bytes -> bool, skip: nat, limit: nat, ghost all: seq<Bytes>)
    returns (page: seq<Bytes>, next: Option<nat>)
    requires AllDescending(streams) && IsTop(Union(streams), |Union(streams)|, all)
    ensures page == PageOf(Take(all, skip + limit), visible, skip, limit)
    ensures next == Token(all, visible, skip, limit)
    ensures |page| <= limit && forall i :: 0 <= i < |page| ==> visible(page[i]) && page[i] in all
    ensures next == if |page| == limit then Some(skip + limit) else None
  {
    hide IsTop, AllDescending, Shown, Union, LexLe;
    var merged := Merge(streams, skip + limit);
    TopPrefix(Union(streams), skip + limit, merged, all);
    var shown := KeepVisible(visible, merged);
    page := Take(Drop(shown, skip), limit);
    next := if |page| < limit then None else Some(skip + limit);
    PageIsVisible(all, visible, skip, limit);
  }

  lemma PageIsVisible(all: seq<Bytes>, visible: Bytes -> bool, skip: nat, limit: nat)
    ensures var page := PageOf(Take(all, skip + limit), visible, skip, limit);
      |page| <= limit && forall i :: 0 <= i < |page| ==> visible(page[i]) && page[i] in all
  {
    hide Shown;
    var merged := Take(all, skip + limit);
    var shown, page := Shown(visible, merged), PageOf(merged, visible, skip, limit);
    forall i | 0 <= i < |page| ensures visible(page[i]) && page[i] in all {
      assert page[i] == shown[skip + i];
      ShownIsVisible(visible, merged, skip + i);
    }
  }

  lemma {:induction false} ShownIsVisible(visible: Bytes -> bool, ids: seq<Bytes>, i: nat)
    requires i < |Shown(visible, ids)|
    ensures visible(Shown(visible, ids)[i]) && Shown(visible, ids)[i] in ids
    decreases |ids|
  {
    var n := |ids| - 1;
    if i < |Shown(visible, ids[..n])| { ShownIsVisible(visible, ids[..n], i); }
  }

  function Token(all: seq<Bytes>, visible: Bytes -> bool, skip: nat, limit: nat): Option<nat> {
    if |PageOf(Take(all, skip + limit), visible, skip, limit)| < limit then None else Some(skip + limit)
  }

  lemma {:induction false} ShownAppend(visible: Bytes -> bool, a: seq<Bytes>, b: seq<Bytes>)
    ensures Shown(visible, a + b) == Shown(visible, a) + Shown(visible, b)
    decreases |b|
  {
    if b == [] {
      assert a + b == a;
    } else {
      var n := |b| - 1;
      assert (a + b)[..|a + b| - 1] == a + b[..n];
      ShownAppend(visible, a, b[..n]);
    }
  }

  lemma {:induction false} ShownWhole(visible: Bytes -> bool, ids: seq<Bytes>)
    requires |Shown(visible, ids)| == |ids|
    ensures Shown(visible, ids) == ids && forall i :: 0 <= i < |ids| ==> visible(ids[i])
    decreases |ids|
  {
    if ids != [] {
      ShownWhole(visible, ids[..|ids| - 1]);
      assert forall i :: 0 <= i < |ids| - 1 ==> ids[..|ids| - 1][i] == ids[i];
    }
  }

  /** Everything before the page is visible. */
  ghost predicate Whole(all: seq<Bytes>, visible: Bytes -> bool, skip: nat) {
    skip <= |all| && Shown(visible, all[..skip]) == all[..skip]
  }

  /** After a whole beginning, a page is the visible part of its stretch. */
  lemma PageIsStretch(all: seq<Bytes>, visible: Bytes -> bool, skip: nat, limit: nat)
    requires Whole(all, visible, skip)
    ensures PageOf(Take(all, skip + limit), visible, skip, limit) == Shown(visible, Take(all[skip..], limit))
    ensures Shown(visible, Take(all, skip + limit)) == all[..skip] + Shown(visible, Take(all[skip..], limit))
  {
    hide Shown;
    var stretch := Take(all[skip..], limit);
    assert Take(all, skip + limit) == all[..skip] + stretch;
    ShownAppend(visible, all[..skip], stretch);
    assert Drop(all[..skip] + Shown(visible, stretch), skip) == Shown(visible, stretch);
  }

  /** A full page has no hidden result in its stretch. */
  lemma FullPageIsWhole(all: seq<Bytes>, visible: Bytes -> bool, skip: nat, limit: nat)
    requires Whole(all, visible, skip) && Token(all, visible, skip, limit).Some?
    ensures Whole(all, visible, skip + limit)
  {
    hide Shown;
    PageIsStretch(all, visible, skip, limit);
    assert |Take(all[skip..], limit)| == limit;
    assert Take(all, skip + limit) == all[..skip + limit];
    ShownWhole(visible, all[..skip + limit]);
  }

  /** The tokens a client is given when it starts without one and follows each to the next page. */
  ghost predicate Followed(all: seq<Bytes>, visible: Bytes -> bool, limit: nat, skips: seq<nat>) {
    && skips != [] && skips[0] == 0
    && forall i :: 0 < i < |skips| ==> Token(all, visible, skips[i - 1], limit) == Some(skips[i])
  }

  lemma FollowedStep(all: seq<Bytes>, visible: Bytes -> bool, limit: nat, skips: seq<nat>)
    requires Followed(all, visible, limit, skips) && |skips| > 1
    ensures var n := |skips| - 1;
            && Followed(all, visible, limit, skips[..n])
            && Token(all, visible, skips[n - 1], limit).Some? && skips[n] == skips[n - 1] + limit
  {
    hide PageOf;
    assert Token(all, visible, skips[|skips| - 2], limit) == Some(skips[|skips| - 1]);
  }

  lemma StartIsWhole(all: seq<Bytes>, visible: Bytes -> bool)
    ensures Whole(all, visible, 0)
  {
  }

  lemma {:induction false} FollowedIsWhole(all: seq<Bytes>, visible: Bytes -> bool, limit: nat, skips: seq<nat>)
    requires Followed(all, visible, limit, skips)
    ensures Whole(all, visible, skips[|skips| - 1])
    decreases |skips|
  {
    hide Whole, Token;
    var n := |skips| - 1;
    if n > 0 {
      FollowedStep(all, visible, limit, skips);
      FollowedIsWhole(all, visible, limit, skips[..n]);
      FullPageIsWhole(all, visible, skips[n - 1], limit);
    } else {
      StartIsWhole(all, visible);
    }
  }

  /** The pages seen so far, one after the other. */
  function Seen(all: seq<Bytes>, visible: Bytes -> bool, limit: nat, skips: seq<nat>): seq<Bytes> {
    if skips == [] then []
    else
      var n := |skips| - 1;
      Seen(all, visible, limit, skips[..n]) + PageOf(Take(all, skips[n] + limit), visible, skips[n], limit)
  }

  /** A client that follows the tokens has seen exactly the visible results up to its page, in order:
      none twice and none skipped. */
  lemma {:induction false} PagesAreExact(all: seq<Bytes>, visible: Bytes -> bool, limit: nat, skips: seq<nat>)
    requires Followed(all, visible, limit, skips)
    ensures Seen(all, visible, limit, skips) == Shown(visible, Take(all, skips[|skips| - 1] + limit))
    decreases |skips|
  {
    hide Shown, PageOf, Token, Seen;
    var n := |skips| - 1;
    var skip, before := skips[n], skips[..n];
    FollowedIsWhole(all, visible, limit, skips);
    PageIsStretch(all, visible, skip, limit);
    SeenStep(all, visible, limit, skips);
    if n > 0 {
      FollowedStep(all, visible, limit, skips);
      PagesAreExact(all, visible, limit, before);
      assert before[|before| - 1] + limit == skip;
    }
  }

  lemma SeenStep(all: seq<Bytes>, visible: Bytes -> bool, limit: nat, skips: seq<nat>)
    requires skips != []
    ensures var n := |skips| - 1;
            Seen(all, visible, limit, skips)
            == (if n > 0 then Seen(all, visible, limit, skips[..n]) else [])
               + PageOf(Take(all, skips[n] + limit), visible, skips[n], limit)
  {
  }

  // ---------- when paging shows everything ----------

  lemma {:induction false} ShownNone(visible: Bytes -> bool, ids: seq<Bytes>)
    ensures Shown(visible, ids) == [] <==> forall i :: 0 <= i < |ids| ==> !visible(ids[i])
    decreases |ids|
  {
    if ids != [] {
      var n := |ids| - 1;
      ShownNone(visible, ids[..n]);
      assert forall i :: 0 <= i < n ==> ids[..n][i] == ids[i];
      assert visible(ids[n]) ==> |Shown(visible, ids)| > 0;
    }
  }

  lemma {:induction false} ShownOfVisible(visible: Bytes -> bool, ids: seq<Bytes>)
    requires forall i :: 0 <= i < |ids| ==> visible(ids[i])
    ensures Shown(visible, ids) == ids
    decreases |ids|
  {
    if ids != [] { ShownOfVisible(visible, ids[..|ids| - 1]); }
  }

  /** The page reached is followed by another exactly when its stretch is complete and all of it may be
      shown, whatever comes after it. */
  lemma HiddenResultEndsPaging(all: seq<Bytes>, visible: Bytes -> bool, limit: nat, skips: seq<nat>)
    requires Followed(all, visible, limit, skips)
    ensures var skip := skips[|skips| - 1];
            Token(all, visible, skip, limit).Some? <==>
            skip + limit <= |all| && forall i :: skip <= i < skip + limit ==> visible(all[i])
  {
    var skip := skips[|skips| - 1];
    FollowedIsWhole(all, visible, limit, skips);
    StretchDecides(all, visible, skip, limit);
  }

  lemma StretchDecides(all: seq<Bytes>, visible: Bytes -> bool, skip: nat, limit: nat)
    requires Whole(all, visible, skip)
    ensures Token(all, visible, skip, limit).Some? <==>
            skip + limit <= |all| && forall i :: skip <= i < skip + limit ==> visible(all[i])
  {
    hide Shown;
    var stretch := Take(all[skip..], limit);
    assert Token(all, visible, skip, limit).Some? <==> |Shown(visible, stretch)| == limit by {
      PageIsStretch(all, visible, skip, limit);
    }
    hide Token, PageOf;
    assert |stretch| == limit <==> skip + limit <= |all|;
    assert forall i :: 0 <= i < |stretch| ==> stretch[i] == all[skip + i];
    if |Shown(visible, stretch)| == limit {
      ShownWhole(visible, stretch);
      forall i | skip <= i < skip + limit ensures visible(all[i]) { assert visible(stretch[i - skip]); }
    }
    if skip + limit <= |all| && forall i :: skip <= i < skip + limit ==> visible(all[i]) {
      ShownOfVisible(visible, stretch);
    }
  }

  /** The pages followed so far show every visible result exactly when none lies behind the last. */
  lemma SeenAllIff(all: seq<Bytes>, visible: Bytes -> bool, limit: nat, skips: seq<nat>)
    requires Followed(all, visible, limit, skips)
    ensures Seen(all, visible, limit, skips) == Shown(visible, all) <==>
            forall i :: skips[|skips| - 1] + limit <= i < |all| ==> !visible(all[i])
  {
    hide Shown, Seen;
    var end := skips[|skips| - 1] + limit;
    var front := Take(all, end);
    var back := all[|front|..];
    assert all == front + back;
    PagesAreExact(all, visible, limit, skips);
    ShownAppend(visible, front, back);
    ShownNone(visible, back);
    assert forall i :: 0 <= i < |back| ==> back[i] == all[i + |front|];
    assert forall i :: |front| <= i < |all| ==> all[i] == back[i - |front|];
  }

  /** The first result that must not be shown, or the end. */
  ghost predicate IsFirstHidden(all: seq<Bytes>, visible: Bytes -> bool, h: nat) {
    h <= |all| && (forall i :: 0 <= i < h ==> visible(all[i])) && (h < |all| ==> !visible(all[h]))
  }

  /** A page is full exactly when its stretch ends before the first hidden result. */
  lemma FullIffBeforeHidden(all: seq<Bytes>, visible: Bytes -> bool, limit: nat, h: nat, skip: nat)
    requires IsFirstHidden(all, visible, h) && skip <= h
    ensures Token(all, visible, skip, limit).Some? <==> limit == 0 || skip + limit <= h
  {
    hide Shown;
    ShownOfVisible(visible, all[..skip]);
    PageIsStretch(all, visible, skip, limit);
    if skip + limit <= h {
      assert Take(all[skip..], limit) == all[skip..skip + limit];
      ShownOfVisible(visible, all[skip..skip + limit]);
    } else if Token(all, visible, skip, limit).Some? && limit > 0 {
      FullPageIsWhole(all, visible, skip, limit);
      ShownWhole(visible, all[..skip + limit]);
    }
  }

  lemma WholeIsBeforeHidden(all: seq<Bytes>, visible: Bytes -> bool, h: nat, skip: nat)
    requires IsFirstHidden(all, visible, h) && Whole(all, visible, skip)
    ensures skip <= h
  {
    hide Shown;
    ShownWhole(visible, all[..skip]);
    assert forall i :: 0 <= i < skip ==> all[..skip][i] == all[i];
  }

  ghost predicate Ended(all: seq<Bytes>, visible: Bytes -> bool, limit: nat, skips: seq<nat>) {
    Followed(all, visible, limit, skips) && Token(all, visible, skips[|skips| - 1], limit).None?
  }

  lemma {:induction false} FollowedCounts(all: seq<Bytes>, visible: Bytes -> bool, limit: nat, skips: seq<nat>)
    requires Followed(all, visible, limit, skips)
    ensures skips[|skips| - 1] == limit * (|skips| - 1)
    decreases |skips|
  {
    hide Token;
    if |skips| > 1 {
      var n := |skips| - 1;
      FollowedStep(all, visible, limit, skips);
      FollowedCounts(all, visible, limit, skips[..n]);
      OneMore(limit, n - 1);
    }
  }

  /** Wherever a client that follows the tokens is stopped, it is on the page of the first hidden
      result. */
  lemma EndIsHiddenPage(all: seq<Bytes>, visible: Bytes -> bool, limit: nat, h: nat, skips: seq<nat>)
    requires limit > 0 && IsFirstHidden(all, visible, h) && Ended(all, visible, limit, skips)
    ensures |skips| == h / limit + 1 && skips[|skips| - 1] == limit * (h / limit)
  {
    hide Token;
    var m, last := |skips| - 1, skips[|skips| - 1];
    FollowedIsWhole(all, visible, limit, skips);
    WholeIsBeforeHidden(all, visible, h, last);
    FullIffBeforeHidden(all, visible, limit, h, last);
    FollowedCounts(all, visible, limit, skips);
    PageNumber(h, limit, m);
  }

  lemma OneMore(limit: nat, n: nat)
    ensures limit * (n + 1) == limit * n + limit
  {
  }

  lemma PageNumber(h: nat, limit: nat, m: nat)
    requires limit > 0 && limit * m <= h < limit * m + limit
    ensures h / limit == m
  {
    R.DivUnique(limit, m, h - limit * m);
  }

  /** And with a positive limit a client is always stopped. */
  lemma {:induction false} PagingEnds(all: seq<Bytes>, visible: Bytes -> bool, limit: nat, h: nat, skips: seq<nat>)
    returns (more: seq<nat>)
    requires limit > 0 && IsFirstHidden(all, visible, h) && Followed(all, visible, limit, skips)
    ensures skips <= more && Ended(all, visible, limit, more)
    decreases h + 1 - skips[|skips| - 1]
  {
    hide Token;
    var last := skips[|skips| - 1];
    FollowedIsWhole(all, visible, limit, skips);
    WholeIsBeforeHidden(all, visible, h, last);
    FullIffBeforeHidden(all, visible, limit, h, last);
    if last + limit <= h {
      TokenIsNext(all, visible, last, limit);
      more := PagingEnds(all, visible, limit, h, skips + [last + limit]);
    } else {
      more := skips;
    }
  }

  lemma TokenIsNext(all: seq<Bytes>, visible: Bytes -> bool, skip: nat, limit: nat)
    ensures Token(all, visible, skip, limit).Some? ==> Token(all, visible, skip, limit) == Some(skip + limit)
  {
  }

  /** The end of the page that position `h` is on. */
  function PageEnd(h: nat, limit: nat): nat
    requires limit > 0
  {
    limit * (h / limit) + limit
  }

  /** A client that follows the tokens to the end has seen every visible result if and only if none
      lies behind the page of the first hidden result. */
  lemma CompleteIff(all: seq<Bytes>, visible: Bytes -> bool, limit: nat, h: nat, skips: seq<nat>)
    requires limit > 0 && IsFirstHidden(all, visible, h) && Ended(all, visible, limit, skips)
    ensures Seen(all, visible, limit, skips) == Shown(visible, all) <==>
            forall i: nat :: PageEnd(h, limit) <= i < |all| ==> !visible(all[i])
  {
    hide Shown, Seen, Token;
    EndIsHiddenPage(all, visible, limit, h, skips);
    SeenAllIff(all, visible, limit, skips);
  }

  /** With a limit of 0 every page is empty, counts as full and leads back to itself. */
  lemma ZeroLimitNeverEnds(all: seq<Bytes>, visible: Bytes -> bool, skip: nat)
    ensures PageOf(Take(all, skip), visible, skip, 0) == [] && Token(all, visible, skip, 0) == Some(skip)
  {
  }
}
