/** The windowing scheduler: the `reaction` that src/renderer/src/store.ts runs whenever the
    selected index or the unsorted collection changes. One invocation is modelled over a
    snapshot: the live value of the `_selectedPhotoIndex` field at each gate check, the elapsed
    wall-clock time and the answers of `getJpegMeta` are oracles passed in as functions. */
module Scheduler {
  import opened Api
  import opened Strings
  import opened Pairing

  const PrefetchWindow: int := 50
  const PreloadWindow: int := 20
  const PrerenderWindow: int := 4

  /** `_selectedPhotoIndex ?? 0`. */
  function IndexOrZero(field: Option<int>): (r: int)
    ensures field.None? ==> r == 0
    ensures field.Some? ==> r == field.value
  {
    field.GetOr(0)
  }

  /** lodash `range(lo, hi)` for `lo <= hi`. */
  function Range(lo: int, hi: int): (r: seq<int>)
    requires lo <= hi
    decreases hi - lo
    ensures |r| == hi - lo
    ensures forall i :: 0 <= i < |r| ==> r[i] == lo + i
  {
    if lo == hi then [] else [lo] + Range(lo + 1, hi)
  }

  /** `flatMap(i => [i, -1 * i])`. */
  function Mirror(xs: seq<int>): (r: seq<int>)
    ensures |r| == 2 * |xs|
    ensures forall i :: 0 <= i < |r| ==> r[i] == if i % 2 == 0 then xs[i / 2] else -xs[i / 2]
  {
    if xs == [] then []
    else
      var rest := Mirror(xs[1..]);
      assert forall i :: 2 <= i < 2 * |xs| ==> (i - 2) / 2 == i / 2 - 1 && (i - 2) % 2 == i % 2;
      [xs[0], -xs[0]] + rest
  }

  lemma {:induction false} MirrorAppend(a: seq<int>, b: seq<int>)
    ensures Mirror(a + b) == Mirror(a) + Mirror(b)
  {
    if a != [] {
      MirrorAppend(a[1..], b);
      assert (a + b)[1..] == a[1..] + b;
    }
  }

  /** The near plan: the current item, then alternately forward and backward up to the preload radius. */
  function NearPlan(): seq<int> {
    [0] + Mirror(Range(1, PrerenderWindow) + Range(PrerenderWindow, PreloadWindow))
  }

  /** The far plan: the same order, up to the prefetch radius. */
  function FarPlan(): seq<int> {
    [0] + Mirror(Range(1, PrerenderWindow) + Range(PrerenderWindow, PreloadWindow) + Range(PreloadWindow, PrefetchWindow))
  }

  /** The offset visited in position `i` of an alternating plan: 0, 1, -1, 2, -2, ... */
  function PlanOffset(i: nat): int {
    if i % 2 == 1 then (i + 1) / 2 else -(i / 2)
  }

  function Abs(x: int): nat {
    if x < 0 then -x else x
  }

  lemma PlanOffsetOfMirror(i: nat)
    requires i > 0
    ensures PlanOffset(i) == if (i - 1) % 2 == 0 then 1 + (i - 1) / 2 else -(1 + (i - 1) / 2)
  {
    var j := (i - 1) / 2;
    assert i - 1 == 2 * j + (i - 1) % 2;
    if (i - 1) % 2 == 0 {
      assert i == 2 * j + 1;
      assert i % 2 == 1 && (i + 1) / 2 == j + 1;
    } else {
      assert i == 2 * j + 2;
      assert i % 2 == 0 && i / 2 == j + 1;
    }
  }

  lemma AlternatingPlan(lo: int, hi: int)
    requires 1 <= lo <= hi
    ensures var plan := [0] + Mirror(Range(1, lo) + Range(lo, hi));
            |plan| == 2 * hi - 1 && forall i :: 0 <= i < |plan| ==> plan[i] == PlanOffset(i)
  {
    var a, b := Range(1, lo), Range(lo, hi);
    var xs := a + b;
    assert |xs| == hi - 1;
    var m := Mirror(xs);
    var plan := [0] + m;
    forall i | 0 <= i < |plan| ensures plan[i] == PlanOffset(i) {
      if i > 0 {
        var j := (i - 1) / 2;
        assert plan[i] == m[i - 1];
        assert m[i - 1] == if (i - 1) % 2 == 0 then xs[j] else -xs[j];
        if j < |a| {
          assert xs[j] == a[j];
        } else {
          assert xs[j] == b[j - |a|];
        }
        assert xs[j] == 1 + j;
        PlanOffsetOfMirror(i);
      }
    }
  }

  /** Two adjacent ranges make one. */
  lemma RangeSplit(lo: int, mid: int, hi: int)
    requires lo <= mid <= hi
    ensures Range(lo, mid) + Range(mid, hi) == Range(lo, hi)
  {
    var joined := Range(lo, mid) + Range(mid, hi);
    forall i | 0 <= i < |joined| ensures joined[i] == lo + i {
      if i >= mid - lo {
        assert joined[i] == Range(mid, hi)[i - (mid - lo)];
      }
    }
  }

  lemma NearPlanShape()
    ensures |NearPlan()| == 2 * PreloadWindow - 1
    ensures forall i :: 0 <= i < |NearPlan()| ==> NearPlan()[i] == PlanOffset(i)
  {
    AlternatingPlan(PrerenderWindow, PreloadWindow);
  }

  lemma FarPlanShape()
    ensures |FarPlan()| == 2 * PrefetchWindow - 1
    ensures forall i :: 0 <= i < |FarPlan()| ==> FarPlan()[i] == PlanOffset(i)
  {
    RangeSplit(1, PrerenderWindow, PreloadWindow);
    AlternatingPlan(PreloadWindow, PrefetchWindow);
  }

  /** The offset at position `i` lies `(i + 1) / 2` away from the current item. */
  lemma PlanOffsetDistance(i: nat)
    ensures Abs(PlanOffset(i)) == (i + 1) / 2
  {
  }

  /** Both plans visit 0, 1, -1, 2, -2, ... nearest first; the near plan is a prefix of the far plan. */
  lemma {:induction false} PlansShape()
    ensures |NearPlan()| == 2 * PreloadWindow - 1 && |FarPlan()| == 2 * PrefetchWindow - 1
    ensures forall i :: 0 <= i < |FarPlan()| ==> FarPlan()[i] == PlanOffset(i)
    ensures NearPlan() == FarPlan()[..|NearPlan()|]
    ensures forall i, j :: 0 <= i < j < |FarPlan()| ==> Abs(FarPlan()[i]) <= Abs(FarPlan()[j])
  {
    NearPlanShape();
    FarPlanShape();
    var near, far := NearPlan(), FarPlan();
    assert near == far[..|near|];
    forall i, j | 0 <= i < j < |far| ensures Abs(far[i]) <= Abs(far[j]) {
      PlanOffsetDistance(i);
      PlanOffsetDistance(j);
    }
  }

  /** What `makeArgs` sends for one window slot. */
  datatype WindowArg = WindowArg(prefix: string, path: string, windowHeight: int)

  function Request(a: WindowArg): JpegMetaRequest {
    JpegMetaRequest(a.path, a.windowHeight)
  }

  function Requests(args: seq<WindowArg>): (r: seq<JpegMetaRequest>)
    ensures |r| == |args| && forall i :: 0 <= i < |args| ==> r[i] == Request(args[i])
  {
    seq(|args|, i requires 0 <= i < |args| => Request(args[i]))
  }

  /** The filter of `makeArgs`: a non-empty collection, an index in range, an item with a non-empty jpeg path. */
  predicate Eligible(photos: seq<JpegRawPhoto>, index: int) {
    |photos| > 0 && 0 <= index < |photos| && photos[index].jpeg.Some? && photos[index].jpeg.value.path != ""
  }

  function ArgAt(photos: seq<JpegRawPhoto>, index: int, windowHeight: int): WindowArg
    requires Eligible(photos, index)
  {
    WindowArg(photos[index].prefix, photos[index].jpeg.value.path, windowHeight)
  }

  /** `makeArgs(offsets)` around the selected index. */
  function MakeArgs(offsets: seq<int>, selected: int, photos: seq<JpegRawPhoto>, windowHeight: int): (r: seq<WindowArg>)
    ensures |r| <= |offsets|
  {
    if offsets == [] then []
    else
      (if Eligible(photos, selected + offsets[0]) then [ArgAt(photos, selected + offsets[0], windowHeight)] else [])
      + MakeArgs(offsets[1..], selected, photos, windowHeight)
  }

  /** `makeArgs` keeps exactly the eligible offsets, each carrying that item's prefix and jpeg path. */
  lemma {:induction false} MakeArgsExactly(offsets: seq<int>, selected: int, photos: seq<JpegRawPhoto>, windowHeight: int)
    ensures forall a :: a in MakeArgs(offsets, selected, photos, windowHeight) ==>
              exists o :: o in offsets && Eligible(photos, selected + o) && a == ArgAt(photos, selected + o, windowHeight)
    ensures forall o :: o in offsets && Eligible(photos, selected + o) ==>
              ArgAt(photos, selected + o, windowHeight) in MakeArgs(offsets, selected, photos, windowHeight)
  {
    if offsets != [] {
      MakeArgsExactly(offsets[1..], selected, photos, windowHeight);
      var rest := MakeArgs(offsets[1..], selected, photos, windowHeight);
      assert offsets == [offsets[0]] + offsets[1..];
      var head := if Eligible(photos, selected + offsets[0]) then [ArgAt(photos, selected + offsets[0], windowHeight)] else [];
      assert MakeArgs(offsets, selected, photos, windowHeight) == head + rest;
      assert offsets[0] in offsets;
      forall a | a in head + rest
        ensures exists o :: o in offsets && Eligible(photos, selected + o) && a == ArgAt(photos, selected + o, windowHeight)
      {
        if a in rest {
          var o :| o in offsets[1..] && Eligible(photos, selected + o) && a == ArgAt(photos, selected + o, windowHeight);
          assert o in offsets;
        }
      }
      forall o | o in offsets && Eligible(photos, selected + o)
        ensures ArgAt(photos, selected + o, windowHeight) in head + rest
      {
        if o != offsets[0] {
          assert o in offsets[1..];
        }
      }
    }
  }

  /** `makeArgs` keeps the offset order: it maps a concatenation of plans to the concatenation of their arguments. */
  lemma {:induction false} MakeArgsAppend(xs: seq<int>, ys: seq<int>, selected: int, photos: seq<JpegRawPhoto>, windowHeight: int)
    ensures MakeArgs(xs + ys, selected, photos, windowHeight)
         == MakeArgs(xs, selected, photos, windowHeight) + MakeArgs(ys, selected, photos, windowHeight)
  {
    if xs != [] {
      MakeArgsAppend(xs[1..], ys, selected, photos, windowHeight);
      var zs := xs + ys;
      assert zs[1..] == xs[1..] + ys && zs[0] == xs[0];
      var head := if Eligible(photos, selected + xs[0]) then [ArgAt(photos, selected + xs[0], windowHeight)] else [];
      assert MakeArgs(zs, selected, photos, windowHeight) == head + MakeArgs(zs[1..], selected, photos, windowHeight);
      assert MakeArgs(xs, selected, photos, windowHeight) == head + MakeArgs(xs[1..], selected, photos, windowHeight);
    } else {
      assert xs + ys == ys;
    }
  }

  function NearArgs(photos: seq<JpegRawPhoto>, selected: int, windowHeight: int): seq<WindowArg> {
    MakeArgs(NearPlan(), selected, photos, windowHeight)
  }

  function FarArgs(photos: seq<JpegRawPhoto>, selected: int, windowHeight: int): seq<WindowArg> {
    MakeArgs(FarPlan(), selected, photos, windowHeight)
  }

  /** The requests loaded synchronously are the first ones of the background plan. */
  lemma NearArgsPrefixOfFar(photos: seq<JpegRawPhoto>, selected: int, windowHeight: int)
    ensures var near := NearArgs(photos, selected, windowHeight);
            var far := FarArgs(photos, selected, windowHeight);
            |near| <= |far| && near == far[..|near|]
  {
    PlansShape();
    var n := |NearPlan()|;
    assert FarPlan() == NearPlan() + FarPlan()[n..];
    MakeArgsAppend(NearPlan(), FarPlan()[n..], selected, photos, windowHeight);
  }

  /** The working copy of the published lightbox entries, keyed by prefix. */
  type Fragment = map<string, JpegMeta>

  /** One invocation's view of the world: the captured index and the oracles. */
  datatype Invocation = Invocation(
    captured: int,
    live: nat -> Option<int>,
    elapsed: nat -> int,
    fetch: JpegMetaRequest -> JpegMeta)

  /** The freshness gate at the `k`-th check: the live field must still equal the captured index. */
  predicate Gate(inv: Invocation, k: nat) {
    inv.live(k) == Some(inv.captured)
  }

  function PrefixSet(args: seq<WindowArg>): set<string> {
    set a | a in args :: a.prefix
  }

  /** The working copy after dropping every key that is not the prefix of a near argument. */
  function Prune(work: Fragment, args: seq<WindowArg>): (r: Fragment)
    ensures forall k :: k in r <==> k in work && k in PrefixSet(args)
    ensures forall k :: k in r ==> r[k] == work[k]
  {
    map k | k in work && k in PrefixSet(args) :: work[k]
  }

  /** The working copy after the first `n` iterations of the near loop. */
  function Filled(inv: Invocation, base: Fragment, args: seq<WindowArg>, n: nat): Fragment
    requires n <= |args|
  {
    if n == 0 then base
    else
      var w := Filled(inv, base, args, n - 1);
      if Gate(inv, n - 1) then w[args[n - 1].prefix := inv.fetch(Request(args[n - 1]))] else w
  }

  /** The intermediate publications of the first `n` iterations: after a gated fetch, once 500 ms have elapsed. */
  function Published(inv: Invocation, base: Fragment, args: seq<WindowArg>, n: nat): seq<Fragment>
    requires n <= |args|
  {
    if n == 0 then []
    else
      Published(inv, base, args, n - 1)
      + (if Gate(inv, n - 1) && inv.elapsed(n - 1) >= 500 then [Filled(inv, base, args, n)] else [])
  }

  /** Everything one invocation publishes, in order, and the plan it hands to `precacheJpegMeta`, if any.
      Each `makeArgs` call reads the window height afresh: `nearHeight` is the height the near window's
      requests carry and `farHeight` the one the background plan's requests carry, read after the loop. */
  datatype Outcome = Outcome(published: seq<Fragment>, precache: Option<seq<JpegMetaRequest>>)

  function ReactionOutcome(photos: seq<JpegRawPhoto>, available: Option<Fragment>, inv: Invocation, nearHeight: int, farHeight: int): Outcome {
    var near := NearArgs(photos, inv.captured, nearHeight);
    var base := Prune(available.GetOr(map[]), near);
    Outcome(
      Published(inv, base, near, |near|) + (if Gate(inv, |near|) then [Filled(inv, base, near, |near|)] else []),
      if Gate(inv, |near| + 1) then Some(Requests(FarArgs(photos, inv.captured, farHeight))) else None)
  }

  /** `difference(Object.keys(work), prefixes).forEach(k => delete work[k])`. */
  method PruneWorkingCopy(work: Fragment, args: seq<WindowArg>) returns (pruned: Fragment)
    ensures pruned == Prune(work, args)
  {
    pruned := work;
    var keep := set a | a in args :: a.prefix;
    var doomed := pruned.Keys - keep;
    while doomed != {}
      invariant doomed <= pruned.Keys && pruned.Keys <= work.Keys
      invariant pruned.Keys - doomed == work.Keys * keep
      invariant forall k :: k in pruned ==> pruned[k] == work[k]
      decreases doomed
    {
      var k :| k in doomed;
      pruned := pruned - {k};
      doomed := doomed - {k};
    }
    assert keep == PrefixSet(args);
    assert pruned.Keys == work.Keys * keep;
    forall k ensures k in pruned <==> k in Prune(work, args) {
      assert k in pruned <==> k in work && k in keep;
    }
    assert pruned.Keys == Prune(work, args).Keys;
  }

  /** The near loop: each argument is fetched into the working copy while the gate holds, and the
      copy is published after a fetch once 500 ms have elapsed. */
  method LoadWindow(captured: int, live: nat -> Option<int>, elapsed: nat -> int, fetch: JpegMetaRequest -> JpegMeta,
                    base: Fragment, near: seq<WindowArg>)
    returns (work: Fragment, published: seq<Fragment>)
    ensures var inv := Invocation(captured, live, elapsed, fetch);
            work == Filled(inv, base, near, |near|) && published == Published(inv, base, near, |near|)
  {
    ghost var inv := Invocation(captured, live, elapsed, fetch);
    work := base;
    published := [];
    for i := 0 to |near|
      invariant work == Filled(inv, base, near, i)
      invariant published == Published(inv, base, near, i)
    {
      if live(i) == Some(captured) {
        work := work[near[i].prefix := fetch(Request(near[i]))];
        if elapsed(i) >= 500 {
          published := published + [work];
        }
      }
    }
  }

  /** One invocation of the reaction: prune the working copy, load the near window under the gate,
      publish, then hand the far window to the background queue. */
  method RunReaction(
    photos: seq<JpegRawPhoto>,
    selectedField: Option<int>,
    available: Option<Fragment>,
    live: nat -> Option<int>,
    elapsed: nat -> int,
    fetch: JpegMetaRequest -> JpegMeta,
    nearHeight: int,
    farHeight: int)
    returns (published: seq<Fragment>, precache: Option<seq<JpegMetaRequest>>)
    ensures Outcome(published, precache)
         == ReactionOutcome(photos, available, Invocation(IndexOrZero(selectedField), live, elapsed, fetch), nearHeight, farHeight)
  {
    var captured := IndexOrZero(selectedField);
    var near := NearArgs(photos, captured, nearHeight);
    var work := PruneWorkingCopy(available.GetOr(map[]), near);
    work, published := LoadWindow(captured, live, elapsed, fetch, work, near);
    if live(|near|) == Some(captured) {
      published := published + [work];
    }
    precache := None;
    if live(|near| + 1) == Some(captured) {
      precache := Some(Requests(FarArgs(photos, captured, farHeight)));
    }
  }

  lemma {:induction false} FilledStaysInWindow(inv: Invocation, base: Fragment, args: seq<WindowArg>, n: nat)
    requires n <= |args| && base.Keys <= PrefixSet(args)
    ensures Filled(inv, base, args, n).Keys <= PrefixSet(args)
  {
    if n > 0 {
      FilledStaysInWindow(inv, base, args, n - 1);
      assert args[n - 1] in args;
    }
  }

  lemma {:induction false} PublishedStaysInWindow(inv: Invocation, base: Fragment, args: seq<WindowArg>, n: nat)
    requires n <= |args| && base.Keys <= PrefixSet(args)
    ensures forall f :: f in Published(inv, base, args, n) ==> f.Keys <= PrefixSet(args)
  {
    if n > 0 {
      PublishedStaysInWindow(inv, base, args, n - 1);
      FilledStaysInWindow(inv, base, args, n);
    }
  }

  /** After pruning, every fragment an invocation publishes is keyed only by prefixes of its near window. */
  lemma ReactionStaysInWindow(photos: seq<JpegRawPhoto>, available: Option<Fragment>, inv: Invocation, nearHeight: int, farHeight: int)
    ensures var near := NearArgs(photos, inv.captured, nearHeight);
            forall f :: f in ReactionOutcome(photos, available, inv, nearHeight, farHeight).published ==> f.Keys <= PrefixSet(near)
  {
    var near := NearArgs(photos, inv.captured, nearHeight);
    var base := Prune(available.GetOr(map[]), near);
    PublishedStaysInWindow(inv, base, near, |near|);
    FilledStaysInWindow(inv, base, near, |near|);
  }

  lemma {:induction false} NoGateNoPublication(inv: Invocation, base: Fragment, args: seq<WindowArg>, n: nat)
    requires n <= |args|
    requires forall k: nat :: k < n ==> !Gate(inv, k)
    ensures Published(inv, base, args, n) == []
  {
    if n > 0 {
      NoGateNoPublication(inv, base, args, n - 1);
    }
  }

  /** One loop step whose gate check fails neither fetches nor publishes: the working copy and the
      publications are those of the step before, whatever earlier steps did. */
  lemma FailedGateStepIsSilent(inv: Invocation, base: Fragment, args: seq<WindowArg>, n: nat)
    requires 0 < n <= |args| && !Gate(inv, n - 1)
    ensures Filled(inv, base, args, n) == Filled(inv, base, args, n - 1)
    ensures Published(inv, base, args, n) == Published(inv, base, args, n - 1)
  {
  }

  /** One loop step whose gate check passes stores the fetched metadata under the argument's prefix, and
      publishes the new working copy exactly when 500 ms have elapsed. */
  lemma PassedGateStepFetches(inv: Invocation, base: Fragment, args: seq<WindowArg>, n: nat)
    requires 0 < n <= |args| && Gate(inv, n - 1)
    ensures Filled(inv, base, args, n)
         == Filled(inv, base, args, n - 1)[args[n - 1].prefix := inv.fetch(Request(args[n - 1]))]
    ensures Published(inv, base, args, n)
         == Published(inv, base, args, n - 1)
            + (if inv.elapsed(n - 1) >= 500 then [Filled(inv, base, args, n)] else [])
  {
  }

  /** The gate decides everything visible: the background plan is handed over exactly when the last
      check holds, and an invocation whose every check fails publishes nothing. */
  lemma StaleInvocationIsSilent(photos: seq<JpegRawPhoto>, available: Option<Fragment>, inv: Invocation, nearHeight: int, farHeight: int)
    ensures var near := NearArgs(photos, inv.captured, nearHeight);
            var outcome := ReactionOutcome(photos, available, inv, nearHeight, farHeight);
            && (outcome.precache.Some? <==> Gate(inv, |near| + 1))
            && ((forall k: nat :: k <= |near| ==> !Gate(inv, k)) ==> outcome.published == [])
  {
    var near := NearArgs(photos, inv.captured, nearHeight);
    if forall k: nat :: k <= |near| ==> !Gate(inv, k) {
      NoGateNoPublication(inv, Prune(available.GetOr(map[]), near), near, |near|);
    }
  }

  /** A field that reads null at every check never passes the gate, whatever index was captured. */
  lemma NullFieldIsSilent(photos: seq<JpegRawPhoto>, available: Option<Fragment>, inv: Invocation, nearHeight: int, farHeight: int)
    requires forall k: nat :: inv.live(k) == None
    ensures ReactionOutcome(photos, available, inv, nearHeight, farHeight) == Outcome([], None)
  {
    StaleInvocationIsSilent(photos, available, inv, nearHeight, farHeight);
  }

  /** `v` is the metadata fetched for one of the first `n` arguments whose prefix is `p`. */
  ghost predicate FetchedAmong(inv: Invocation, args: seq<WindowArg>, n: nat, p: string, v: JpegMeta)
    requires n <= |args|
  {
    exists i :: 0 <= i < n && args[i].prefix == p && v == inv.fetch(Request(args[i]))
  }

  lemma FetchedAmongGrows(inv: Invocation, args: seq<WindowArg>, n: nat, p: string, v: JpegMeta)
    requires n < |args| && FetchedAmong(inv, args, n, p, v)
    ensures FetchedAmong(inv, args, n + 1, p, v)
  {
    var i :| 0 <= i < n && args[i].prefix == p && v == inv.fetch(Request(args[i]));
    assert 0 <= i < n + 1;
  }

  lemma {:induction false} FilledContents(inv: Invocation, base: Fragment, args: seq<WindowArg>, n: nat)
    requires n <= |args|
    requires forall k: nat :: k < n ==> Gate(inv, k)
    ensures forall i :: 0 <= i < n ==>
              args[i].prefix in Filled(inv, base, args, n)
              && FetchedAmong(inv, args, n, args[i].prefix, Filled(inv, base, args, n)[args[i].prefix])
    ensures forall p :: p in Filled(inv, base, args, n) ==>
              p in base || FetchedAmong(inv, args, n, p, Filled(inv, base, args, n)[p])
  {
    if n > 0 {
      FilledContents(inv, base, args, n - 1);
      var prev := Filled(inv, base, args, n - 1);
      var last := args[n - 1];
      var cur := prev[last.prefix := inv.fetch(Request(last))];
      assert Gate(inv, n - 1);
      assert Filled(inv, base, args, n) == cur;
      assert FetchedAmong(inv, args, n, last.prefix, cur[last.prefix]);
      forall i | 0 <= i < n
        ensures args[i].prefix in cur && FetchedAmong(inv, args, n, args[i].prefix, cur[args[i].prefix])
      {
        if args[i].prefix != last.prefix {
          FetchedAmongGrows(inv, args, n - 1, args[i].prefix, prev[args[i].prefix]);
        }
      }
      forall p | p in cur
        ensures p in base || FetchedAmong(inv, args, n, p, cur[p])
      {
        if p != last.prefix && p !in base {
          FetchedAmongGrows(inv, args, n - 1, p, prev[p]);
        }
      }
    }
  }

  /** With every gate passing, the filled copy of a pruned working copy is keyed exactly by the
      arguments' prefixes, each entry fetched for an argument of that prefix. */
  lemma FilledCoversArgs(inv: Invocation, base: Fragment, args: seq<WindowArg>)
    requires base.Keys <= PrefixSet(args)
    requires forall k: nat :: k < |args| ==> Gate(inv, k)
    ensures var final := Filled(inv, base, args, |args|);
            && final.Keys == PrefixSet(args)
            && forall p :: p in PrefixSet(args) ==> FetchedAmong(inv, args, |args|, p, final[p])
  {
    FilledContents(inv, base, args, |args|);
    FilledStaysInWindow(inv, base, args, |args|);
    var final := Filled(inv, base, args, |args|);
    forall p | p in PrefixSet(args)
      ensures p in final && FetchedAmong(inv, args, |args|, p, final[p])
    {
      var a :| a in args && a.prefix == p;
      var i :| 0 <= i < |args| && args[i] == a;
    }
  }

  /** While the position holds still, the final publication covers exactly the near window, each entry
      being the metadata fetched for an argument of that prefix. */
  lemma SteadyPositionFillsWindow(photos: seq<JpegRawPhoto>, available: Option<Fragment>, inv: Invocation, nearHeight: int, farHeight: int)
    requires var near := NearArgs(photos, inv.captured, nearHeight);
             forall k: nat :: k <= |near| ==> Gate(inv, k)
    ensures var near := NearArgs(photos, inv.captured, nearHeight);
            var published := ReactionOutcome(photos, available, inv, nearHeight, farHeight).published;
            && published != []
            && published[|published| - 1].Keys == PrefixSet(near)
            && forall p :: p in PrefixSet(near) ==>
                 FetchedAmong(inv, near, |near|, p, published[|published| - 1][p])
  {
    var near := NearArgs(photos, inv.captured, nearHeight);
    var base := Prune(available.GetOr(map[]), near);
    FilledCoversArgs(inv, base, near);
    assert Gate(inv, |near|);
  }
}
