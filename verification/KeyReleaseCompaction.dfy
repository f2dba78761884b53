/** Dropping autorepeated key events that wait in the event queue. */
module KeyReleaseCompaction {
  import opened Helpers

  datatype Event =
    | KeyPress(keycode: nat, time: int)
    | KeyRelease(keycode: nat, time: int)
    | Other(data: nat)

  predicate IsKey(e: Event) { !e.Other? }

  /** A release and the press that the server made up for it at about the same time. */
  predicate IsPair(e1: Event, e2: Event) {
    e1.KeyRelease? && e2.KeyPress? && -2 <= e1.time - e2.time <= 2
  }

  predicate PairAt(s: seq<Event>, i: nat) {
    i + 1 < |s| && IsPair(s[i], s[i + 1])
  }

  predicate NoKeys(s: seq<Event>) {
    forall e <- s :: !IsKey(e)
  }

  function NonKeys(s: seq<Event>): seq<Event> {
    if s == [] then [] else if IsKey(s[0]) then NonKeys(s[1..]) else [s[0]] + NonKeys(s[1..])
  }

  function Keys(s: seq<Event>): seq<Event> {
    if s == [] then [] else if IsKey(s[0]) then [s[0]] + Keys(s[1..]) else Keys(s[1..])
  }

  function Weight(e: Event, keycode: nat): int {
    match e
    case KeyPress(c, _) => if c == keycode then 1 else 0
    case KeyRelease(c, _) => if c == keycode then -1 else 0
    case Other(_) => 0
  }

  /** Presses minus releases of a key. */
  function Balance(s: seq<Event>, keycode: nat): int {
    if s == [] then 0 else Weight(s[0], keycode) + Balance(s[1..], keycode)
  }

  /** Nothing but complete adjacent pairs and events of other kinds. */
  predicate OnlyPairs(s: seq<Event>) {
    s == []
    || (!IsKey(s[0]) && OnlyPairs(s[1..]))
    || (PairAt(s, 0) && OnlyPairs(s[2..]))
  }

  lemma {:induction false} PartsCounted(s: seq<Event>, t: seq<Event>)
    ensures NonKeys(s + t) == NonKeys(s) + NonKeys(t)
    ensures Keys(s + t) == Keys(s) + Keys(t)
    ensures forall k :: Balance(s + t, k) == Balance(s, k) + Balance(t, k)
  {
    if s == [] {
      assert s + t == t;
    } else {
      PartsCounted(s[1..], t);
      assert (s + t)[0] == s[0] && (s + t)[1..] == s[1..] + t;
      hide Weight;
      Assoc([s[0]], NonKeys(s[1..]), NonKeys(t));
      Assoc([s[0]], Keys(s[1..]), Keys(t));
    }
  }

  lemma {:induction false} NonKeysFrom(s: seq<Event>, i: nat, n: nat)
    requires i < n <= |s|
    ensures NonKeys(s[i..n]) == if IsKey(s[i]) then NonKeys(s[i + 1..n]) else [s[i]] + NonKeys(s[i + 1..n])
  {
    assert s[i..n][0] == s[i] && s[i..n][1..] == s[i + 1..n];
  }

  lemma {:induction false} PairsInARow(s: seq<Event>, t: seq<Event>)
    requires OnlyPairs(s) && OnlyPairs(t)
    ensures OnlyPairs(s + t)
    decreases |s|
  {
    if s == [] {
      assert s + t == t;
    } else if !IsKey(s[0]) {
      PairsInARow(s[1..], t);
      assert (s + t)[1..] == s[1..] + t;
    } else {
      PairsInARow(s[2..], t);
      assert (s + t)[2..] == s[2..] + t;
      assert PairAt(s + t, 0);
    }
  }

  lemma {:induction false} NonKeysAreNoKeys(s: seq<Event>)
    ensures NoKeys(NonKeys(s)) && NonKeys(NonKeys(s)) == NonKeys(s) && Keys(NonKeys(s)) == []
    ensures forall k :: Balance(NonKeys(s), k) == 0
  {
    if s != [] {
      NonKeysAreNoKeys(s[1..]);
      var n := NonKeys(s);
      if !IsKey(s[0]) {
        assert n[0] == s[0] && n[1..] == NonKeys(s[1..]);
      }
    }
  }

  lemma {:induction false} PairsBalance(s: seq<Event>, keycode: nat)
    requires OnlyPairs(s) && forall i | 0 <= i < |s| :: !Foreign(s[i], keycode)
    ensures forall k :: Balance(s, k) == 0
    ensures |Keys(s)| % 2 == 0
    decreases |s|
  {
    if s != [] {
      if PairAt(s, 0) {
        PairsBalance(s[2..], keycode);
        assert s[1..][1..] == s[2..] && s[1..][0] == s[1];
        assert Keys(s) == [s[0]] + ([s[1]] + Keys(s[2..]));
        forall k ensures Balance(s, k) == 0 {
          assert Balance(s, k) == Weight(s[0], k) + (Weight(s[1], k) + Balance(s[2..], k));
          assert s[0].keycode == keycode && s[1].keycode == keycode;
        }
      } else {
        PairsBalance(s[1..], keycode);
      }
    }
  }

  /** One half of a pair: a release directly in front of a press, or the press, with time stamps at most 2 apart. */
  predicate IsHalf(s: seq<Event>, i: nat)
    requires i < |s|
  {
    match s[i]
    case KeyRelease(_, time) => i + 1 < |s| && s[i + 1].KeyPress? && time - 2 <= s[i + 1].time <= time + 2
    case KeyPress(_, time) => 0 < i && s[i - 1].KeyRelease? && time - 2 <= s[i - 1].time <= time + 2
    case Other(_) => false
  }

  lemma {:induction false} OnlyPairsIff(s: seq<Event>)
    ensures OnlyPairs(s) <==> forall i | 0 <= i < |s| && !s[i].Other? :: IsHalf(s, i)
    decreases |s|
  {
    if s != [] {
      var n := if s[0].Other? then 1 else 2;
      if n == 1 || PairAt(s, 0) {
        var t := s[n..];
        OnlyPairsIff(t);
        forall i | n <= i < |s| ensures s[i] == t[i - n] && (IsHalf(s, i) <==> IsHalf(t, i - n)) {
        }
        if forall i | 0 <= i < |s| && !s[i].Other? :: IsHalf(s, i) {
          forall i | 0 <= i < |t| && !t[i].Other? ensures IsHalf(t, i) {
            assert s[i + n] == t[i + n - n];
          }
        }
      } else {
        assert !IsHalf(s, 0);
      }
    }
  }

  // ----- the event to deliver

  /**
   * What the scan is for: `f1` is the first key event behind complete pairs that is not itself followed by
   * another complete pair, and `f2` its partner if it has one.
   */
  predicate Found(p: seq<Event>, f1: nat, f2: nat) {
    && f1 <= f2 < |p|
    && IsKey(p[f1])
    && OnlyPairs(p[..f1])
    && (if PairAt(p, f1) then f2 == f1 + 1 && NoKeys(p[f2 + 1..]) else f2 == f1)
  }

  /** There is only one such place. */
  lemma {:induction false} FoundIsUnique(p: seq<Event>, f1: nat, f2: nat, g1: nat, g2: nat)
    requires Found(p, f1, f2) && Found(p, g1, g2)
    ensures f1 == g1 && f2 == g2
    decreases |p|
  {
    if f1 > 0 && g1 > 0 {
      var n := if IsKey(p[0]) then 2 else 1;
      assert p[..f1][0] == p[0] && p[..g1][0] == p[0];
      assert f1 >= n && g1 >= n;
      assert p[..f1][n..] == p[n..][..f1 - n] && p[..g1][n..] == p[n..][..g1 - n];
      assert p[n..][f2 - n + 1..] == p[f2 + 1..] && p[n..][g2 - n + 1..] == p[g2 + 1..];
      FoundIsUnique(p[n..], f1 - n, f2 - n, g1 - n, g2 - n);
    } else if f1 > 0 {
      FirstIsNotLast(p, f1, g2);
    } else if g1 > 0 {
      FirstIsNotLast(p, g1, f2);
    }
  }

  lemma {:induction false} FirstIsNotLast(p: seq<Event>, f: nat, g: nat)
    requires 0 < f < |p| && IsKey(p[f]) && OnlyPairs(p[..f])
    ensures !Found(p, 0, g)
  {
    assert p[..f][0] == p[0];
    if IsKey(p[0]) {
      assert PairAt(p[..f], 0) && p[..f][1] == p[1];
      assert p[f] == p[2..][f - 2];
    }
  }

  // ----- the queue

  function Foreign(e: Event, keycode: nat): bool {
    IsKey(e) && e.keycode != keycode
  }

  /** How many events there are before the first one of another key. */
  function OwnLength(q: seq<Event>, keycode: nat): (n: nat)
    ensures n <= |q|
    ensures forall e <- q[..n] :: !Foreign(e, keycode)
    ensures n < |q| ==> Foreign(q[n], keycode)
  {
    if q == [] || Foreign(q[0], keycode) then 0
    else assert q[..1 + OwnLength(q[1..], keycode)] == [q[0]] + q[1..][..OwnLength(q[1..], keycode)];
         1 + OwnLength(q[1..], keycode)
  }

  function Partner(p: seq<Event>, f1: nat, f2: nat): seq<Event>
    requires f2 < |p|
  {
    if f2 != f1 then [p[f2]] else []
  }

  /** The events that go back to the queue, in front of what has not been looked at. */
  function PutBackEvents(p: seq<Event>, f1: nat, f2: nat): seq<Event>
    requires f1 <= f2 < |p|
  {
    Partner(p, f1, f2) + NonKeys(p[..f1]) + p[f2 + 1..]
  }

  /** The release at `i` is directly followed by a press of the same key, with time stamps at most 2 apart. */
  predicate IsRepeat(q: seq<Event>, i: nat)
    requires i < |q|
  {
    && i + 1 < |q| && q[i].KeyRelease? && q[i + 1].KeyPress? && q[i].keycode == q[i + 1].keycode
    && q[i].time - 2 <= q[i + 1].time <= q[i].time + 2
  }

  /** A key event of another key waits between `i` and `j`. */
  predicate IsCutOff(q: seq<Event>, keycode: nat, i: nat, j: nat)
    requires i <= j <= |q|
  {
    exists f | i <= f < j :: !q[f].Other? && q[f].keycode != keycode
  }

  /**
   * Delivering the event at `d` instead of the release at the front: the key events before it are complete repeats of
   * the same key, and it is not itself a repeat with another event of the key behind, unless one of another key is
   * in between.
   */
  predicate IsDelivered(q: seq<Event>, d: nat)
    requires d < |q| && q[0].KeyRelease?
  {
    && (forall i | 0 <= i < d && !q[i].Other? :: q[i].keycode == q[0].keycode && IsHalf(q[..d], i))
    && !q[d].Other? && q[d].keycode == q[0].keycode
    && (IsRepeat(q, d) ==> forall j | d + 1 < j < |q| && !q[j].Other? && q[j].keycode == q[0].keycode ::
                             IsCutOff(q, q[0].keycode, d + 2, j))
  }

  /** Only a press directly behind a release of the key, and at most 2 away from it, can be discarded. */
  lemma {:induction false} LatePressIsKept(q: seq<Event>, d: nat, i: nat)
    requires d < |q| && q[0].KeyRelease? && IsDelivered(q, d) && i < d && q[i].KeyPress?
    ensures 0 < i && q[i - 1].KeyRelease? && -2 <= q[i].time - q[i - 1].time <= 2
    ensures q[i - 1].keycode == q[i].keycode == q[0].keycode
  {
    assert IsHalf(q[..d], i);
  }

  /** What the queue is afterwards: the press of a delivered repeat comes first, and all else keeps its order. */
  function Remaining(q: seq<Event>, d: nat): seq<Event>
    requires d < |q|
  {
    if IsRepeat(q, d) then [q[d + 1]] + NonKeys(q[..d]) + q[d + 2..] else NonKeys(q[..d]) + q[d + 1..]
  }

  lemma {:induction false} CompactedIs(event: Event, q: seq<Event>, f1: nat, f2: nat)
    requires event.KeyRelease? && Found([event] + q[..OwnLength(q, event.keycode)], f1, f2)
    ensures var all, p := [event] + q, [event] + q[..OwnLength(q, event.keycode)];
      && f1 < |all| && IsDelivered(all, f1) && p[f1] == all[f1]
      && PutBackEvents(p, f1, f2) + q[OwnLength(q, event.keycode)..] == Remaining(all, f1)
  {
    var n, all := OwnLength(q, event.keycode), [event] + q;
    var p := [event] + q[..n];
    assert all == p + q[n..];
    assert forall i | 0 <= i < |p| :: p[i] == all[i] && !Foreign(p[i], event.keycode);
    assert n < |q| ==> all[|p|] == q[n];
    DeliveredOf(all, p, event.keycode, f1, f2);
    RemainingOf(p, q[n..], f1, f2);
  }

  lemma {:induction false} CompactedKeeps(event: Event, q: seq<Event>, f1: nat, f2: nat)
    requires event.KeyRelease? && Found([event] + q[..OwnLength(q, event.keycode)], f1, f2)
    ensures var all, p := [event] + q, [event] + q[..OwnLength(q, event.keycode)];
      var after := [p[f1]] + (PutBackEvents(p, f1, f2) + q[OwnLength(q, event.keycode)..]);
      NonKeys(after) == NonKeys(all) && forall k :: Balance(after, k) == Balance(all, k)
  {
    var n := OwnLength(q, event.keycode);
    assert [event] + q == ([event] + q[..n]) + q[n..];
    CompactionKeeps([event] + q[..n], f1, f2, q[n..], event.keycode);
  }

  lemma {:induction false} DeliveredOf(all: seq<Event>, p: seq<Event>, keycode: nat, f1: nat, f2: nat)
    requires |p| <= |all| && p == all[..|p|] && Found(p, f1, f2) && p[0].KeyRelease? && p[0].keycode == keycode
    requires forall i | 0 <= i < |p| :: !Foreign(p[i], keycode)
    requires |p| < |all| ==> Foreign(all[|p|], keycode)
    ensures IsDelivered(all, f1) && (IsRepeat(all, f1) <==> f1 != f2)
  {
    assert all[..f1] == p[..f1];
    OnlyPairsIff(p[..f1]);
    assert forall i | 0 <= i < |p| :: all[i] == p[i];
    hide OnlyPairs;
    if IsRepeat(all, f1) {
      CutOffBehind(all, p, keycode, f2 + 1);
    }
  }

  lemma {:induction false} RemainingOf(p: seq<Event>, rest: seq<Event>, f1: nat, f2: nat)
    requires f1 <= f2 < |p| && f2 <= f1 + 1 && (IsRepeat(p + rest, f1) <==> f1 != f2)
    ensures PutBackEvents(p, f1, f2) + rest == Remaining(p + rest, f1)
  {
    hide NonKeys, IsRepeat;
    assert (p + rest)[..f1] == p[..f1] && (f1 != f2 ==> (p + rest)[f1 + 1] == p[f2]);
    TailOf(p, rest, f2 + 1);
    Assoc(Partner(p, f1, f2) + NonKeys(p[..f1]), p[f2 + 1..], rest);
    assert [] + NonKeys(p[..f1]) == NonKeys(p[..f1]);
  }

  lemma {:induction false} TailOf<T>(s: seq<T>, t: seq<T>, i: nat)
    requires i <= |s|
    ensures s[i..] + t == (s + t)[i..]
  {
  }

  lemma {:induction false} CutOffBehind(all: seq<Event>, p: seq<Event>, keycode: nat, i: nat)
    requires i <= |p| <= |all| && p == all[..|p|] && NoKeys(p[i..])
    requires |p| < |all| ==> Foreign(all[|p|], keycode)
    ensures forall j | i <= j < |all| && !all[j].Other? && all[j].keycode == keycode :: IsCutOff(all, keycode, i, j)
  {
    forall j | i <= j < |p| ensures !IsKey(all[j]) {
      assert p[i..][j - i] in p[i..] && all[j] == p[i..][j - i];
    }
    forall j | i <= j < |all| && !all[j].Other? && all[j].keycode == keycode ensures IsCutOff(all, keycode, i, j) {
      assert |p| < j;
    }
  }

  class EventQueue {
    var events: seq<Event>

    constructor (events: seq<Event>)
      ensures this.events == events
    {
      this.events := events;
    }

    method NextEvent() returns (e: Event)
      requires events != []
      modifies this
      ensures [e] + events == old(events)
    {
      e := events[0];
      events := events[1..];
    }

    method PutBack(e: Event)
      modifies this
      ensures events == [e] + old(events)
    {
      events := [e] + events;
    }

    /** Take the events out of the queue up to the first one of another key. */
    method Peek(event: Event) returns (peeked: seq<Event>)
      requires event.KeyRelease?
      modifies this
      ensures var n := OwnLength(old(events), event.keycode);
        peeked == [event] + old(events)[..n] && events == old(events)[n..]
    {
      peeked := [event];
      while events != []
        invariant |peeked| >= 1
        invariant peeked + events == [event] + old(events)
        invariant |peeked| - 1 + OwnLength(events, event.keycode) == OwnLength(old(events), event.keycode)
        decreases |events|
      {
        ghost var before := events;
        var next := NextEvent();
        assert before[1..] == events;
        if Foreign(next, event.keycode) {
          PutBack(next);
          break;
        }
        peeked := peeked + [next];
      }
      ghost var all := [event] + old(events);
      assert peeked == (peeked + events)[..|peeked|] && events == (peeked + events)[|peeked|..];
    }

    /** The scan over the peeked events. */
    method FindEvents(peeked: seq<Event>) returns (foundIndex1: nat, foundIndex2: nat)
      requires peeked != [] && peeked[0].KeyRelease?
      ensures Found(peeked, foundIndex1, foundIndex2)
    {
      foundIndex1, foundIndex2 := 0, 0;
      var i := 0;
      while i < |peeked|
        invariant 0 <= i <= |peeked|
        invariant i == 0 ==> foundIndex1 == foundIndex2 == 0
        invariant OnlyPairs(peeked[..i])
        invariant i > 0 ==>
          && foundIndex2 == foundIndex1 + 1 && foundIndex2 < i
          && PairAt(peeked, foundIndex1) && OnlyPairs(peeked[..foundIndex1]) && NoKeys(peeked[foundIndex2 + 1..i])
      {
        if IsKey(peeked[i]) {
          foundIndex1, foundIndex2 := i, i;
          if PairAt(peeked, i) {
            assert PairAt(peeked[i..i + 2], 0) && peeked[i..i + 2][2..] == [];
            PairsInARow(peeked[..i], peeked[i..i + 2]);
            assert peeked[..i] + peeked[i..i + 2] == peeked[..i + 2];
            i := i + 1;
            foundIndex2 := i;
          } else {
            break;
          }
        } else {
          PairsInARow(peeked[..i], peeked[i..i + 1]);
          assert peeked[..i] + peeked[i..i + 1] == peeked[..i + 1];
        }
        i := i + 1;
      }
    }

    method GiveBackFollowing(peeked: seq<Event>, f2: nat)
      requires f2 < |peeked|
      modifies this
      ensures events == peeked[f2 + 1..] + old(events)
    {
      var i := |peeked| - 1;
      while i > f2
        invariant f2 <= i < |peeked|
        invariant events == peeked[i + 1..] + old(events)
      {
        assert peeked[i..] == [peeked[i]] + peeked[i + 1..];
        PutBack(peeked[i]);
        i := i - 1;
      }
    }

    /** Key events before the delivered one are not given back: they are autorepeated ones. */
    method GiveBackPreceding(peeked: seq<Event>, f1: nat)
      requires f1 <= |peeked|
      modifies this
      ensures events == NonKeys(peeked[..f1]) + old(events)
    {
      assert NonKeys(peeked[f1..f1]) == [];
      hide NonKeys;
      ghost var rest := events;
      var i := f1;
      while i > 0
        invariant 0 <= i <= f1
        invariant events == NonKeys(peeked[i..f1]) + rest
      {
        i := i - 1;
        NonKeysFrom(peeked, i, f1);
        Assoc([peeked[i]], NonKeys(peeked[i + 1..f1]), rest);
        if !IsKey(peeked[i]) {
          PutBack(peeked[i]);
        }
      }
      assert peeked[..f1] == peeked[0..f1];
    }

    method GiveBack(peeked: seq<Event>, f1: nat, f2: nat)
      requires f1 <= f2 < |peeked|
      modifies this
      ensures events == PutBackEvents(peeked, f1, f2) + old(events)
    {
      hide NonKeys;
      GiveBackFollowing(peeked, f2);
      GiveBackPreceding(peeked, f1);
      if f2 != f1 {
        PutBack(peeked[f2]);
      }
    }

    /** What a key release turns into. */
    method Compact(event: Event) returns (delivered: Event, ghost f1: nat, ghost f2: nat)
      requires event.KeyRelease?
      modifies this
      ensures var n := OwnLength(old(events), event.keycode);
              var peeked := [event] + old(events)[..n];
        && Found(peeked, f1, f2)
        && delivered == peeked[f1]
        && events == PutBackEvents(peeked, f1, f2) + old(events)[n..]
    {
      var peeked := Peek(event);
      var foundIndex1, foundIndex2 := FindEvents(peeked);
      GiveBack(peeked, foundIndex1, foundIndex2);
      delivered := peeked[foundIndex1];
      f1, f2 := foundIndex1, foundIndex2;
    }

    /** Take the next event out of the queue; a key release is compacted with what waits behind it. */
    method DispatchOne() returns (delivered: Event, ghost d: nat)
      requires events != []
      modifies this
      ensures d < |old(events)| && delivered == old(events)[d]
      ensures if old(events)[0].KeyRelease? then IsDelivered(old(events), d) && events == Remaining(old(events), d)
              else d == 0 && events == old(events)[1..]
      ensures NonKeys([delivered] + events) == NonKeys(old(events))
      ensures forall k :: Balance([delivered] + events, k) == Balance(old(events), k)
    {
      hide Balance, NonKeys, IsDelivered, Remaining, PutBackEvents, Found, OwnLength;
      delivered := NextEvent();
      d := 0;
      if delivered.KeyRelease? {
        ghost var event, q, f2 := delivered, events, 0;
        delivered, d, f2 := Compact(delivered);
        CompactedIs(event, q, d, f2);
        CompactedKeeps(event, q, d, f2);
      }
    }

    /** Deliver up to `n` events: no other event is lost or moved among its kind, and no key gets stuck. */
    method Dispatch(n: nat) returns (delivered: seq<Event>)
      modifies this
      ensures NonKeys(delivered + events) == NonKeys(old(events))
      ensures forall k :: Balance(delivered + events, k) == Balance(old(events), k)
      ensures |delivered| == n || (|delivered| < n && events == [])
    {
      hide Balance, NonKeys, IsDelivered, Remaining;
      delivered := [];
      assert [] + events == events;
      while |delivered| < n && events != []
        invariant |delivered| <= n
        invariant NonKeys(delivered + events) == NonKeys(old(events))
        invariant forall k :: Balance(delivered + events, k) == Balance(old(events), k)
        decreases n - |delivered|
      {
        ghost var before := events;
        var e, _ := DispatchOne();
        OneMoreDelivered(delivered, e, events, before);
        delivered := delivered + [e];
      }
    }
  }

  lemma {:induction false} OneMoreDelivered(delivered: seq<Event>, e: Event, rest: seq<Event>, before: seq<Event>)
    requires NonKeys([e] + rest) == NonKeys(before) && forall k :: Balance([e] + rest, k) == Balance(before, k)
    ensures NonKeys((delivered + [e]) + rest) == NonKeys(delivered + before)
    ensures forall k :: Balance((delivered + [e]) + rest, k) == Balance(delivered + before, k)
  {
    hide NonKeys, Balance;
    PartsCounted(delivered, before);
    PartsCounted(delivered, [e] + rest);
    assert delivered + ([e] + rest) == (delivered + [e]) + rest;
  }

  // ----- what compaction keeps

  /**
   * All other events stay, in their order; of the key events those before the delivered one go,
   * which are complete pairs of that key; what follows the kept pair is untouched.
   */
  lemma {:induction false} CompactionKeeps(p: seq<Event>, f1: nat, f2: nat, rest: seq<Event>, keycode: nat)
    requires Found(p, f1, f2) && forall e <- p :: !Foreign(e, keycode)
    ensures var before, after := p + rest, [p[f1]] + (PutBackEvents(p, f1, f2) + rest);
      && NonKeys(after) == NonKeys(before)
      && Keys(before) == Keys(p[..f1]) + Keys(after)
      && OnlyPairs(p[..f1])
      && (forall k :: Balance(after, k) == Balance(before, k))
      && after[|after| - (|before| - f2 - 1)..] == before[f2 + 1..]
  {
    hide Balance, NonKeys, Keys, OnlyPairs, Foreign;
    var first, kept, tail := p[..f1], [p[f1]] + Partner(p, f1, f2), p[f2 + 1..] + rest;
    NonKeysAreNoKeys(first);
    PairsBalance(first, keycode);
    KeptAreKeys(p, f1, f2);
    PartsReordered(first, kept, tail);
    Reordered(p, f1, f2, rest, NonKeys(first));
  }

  lemma {:induction false} Reordered(p: seq<Event>, f1: nat, f2: nat, rest: seq<Event>, nonKeys: seq<Event>)
    requires f1 <= f2 < |p| && f2 <= f1 + 1
    ensures var kept, tail := [p[f1]] + Partner(p, f1, f2), p[f2 + 1..] + rest;
      && p + rest == p[..f1] + (kept + tail)
      && [p[f1]] + ((Partner(p, f1, f2) + nonKeys + p[f2 + 1..]) + rest) == kept + (nonKeys + tail)
      && (p + rest)[f2 + 1..] == tail
      && (kept + (nonKeys + tail))[|kept| + |nonKeys|..] == tail
  {
    var kept, behind := [p[f1]] + Partner(p, f1, f2), p[f2 + 1..];
    var tail := behind + rest;
    assert kept == p[f1..f2 + 1];
    FourParts(p[..f1], kept, behind, rest);
    assert p == (p[..f1] + kept) + behind;
    Assoc([p[f1]], Partner(p, f1, f2), nonKeys + tail);
    FourParts(Partner(p, f1, f2), nonKeys, behind, rest);
    Suffix(p[..f1] + kept, tail);
    Suffix(kept + nonKeys, tail);
    Assoc(kept, nonKeys, tail);
  }

  lemma {:induction false} FourParts(a: seq<Event>, b: seq<Event>, c: seq<Event>, d: seq<Event>)
    ensures ((a + b) + c) + d == a + (b + (c + d)) == (a + b) + (c + d)
  {
  }

  lemma {:induction false} Suffix(a: seq<Event>, b: seq<Event>)
    ensures (a + b)[|a|..] == b
  {
  }

  lemma {:induction false} PartsReordered(first: seq<Event>, kept: seq<Event>, tail: seq<Event>)
    requires NonKeys(kept) == [] && forall k :: Balance(first, k) == 0
    ensures var before, after := first + (kept + tail), kept + (NonKeys(first) + tail);
      && NonKeys(after) == NonKeys(before)
      && Keys(before) == Keys(first) + Keys(after)
      && forall k :: Balance(after, k) == Balance(before, k)
  {
    NonKeysAreNoKeys(first);
    hide Balance, NonKeys, Keys;
    var nonKeys := NonKeys(first);
    PartsCounted(first, kept + tail);
    PartsCounted(kept, tail);
    PartsCounted(kept, nonKeys + tail);
    PartsCounted(nonKeys, tail);
    assert [] + Keys(tail) == Keys(tail) && [] + NonKeys(tail) == NonKeys(tail);
  }

  lemma {:induction false} KeptAreKeys(p: seq<Event>, f1: nat, f2: nat)
    requires Found(p, f1, f2)
    ensures NonKeys([p[f1]] + Partner(p, f1, f2)) == []
  {
    var kept := [p[f1]] + Partner(p, f1, f2);
    assert kept[0] == p[f1] && kept[1..] == Partner(p, f1, f2);
    if f2 != f1 {
      assert PairAt(p, f1) && kept[1..][0] == p[f2] && kept[1..][1..] == [];
      assert NonKeys(kept[1..]) == NonKeys(kept[1..][1..]) == [];
    }
  }

  /** Compacting the delivered event again changes nothing: no repeat is left over. */
  lemma {:induction false} CompactionIsComplete(p: seq<Event>, f1: nat, f2: nat, g1: nat, g2: nat)
    requires Found(p, f1, f2)
    requires Found([p[f1]] + PutBackEvents(p, f1, f2), g1, g2)
    ensures g1 == 0
    ensures PutBackEvents([p[f1]] + PutBackEvents(p, f1, f2), g1, g2) == PutBackEvents(p, f1, f2)
  {
    var q := [p[f1]] + PutBackEvents(p, f1, f2);
    DeliveredIsFound(p, f1, f2);
    FoundIsUnique(q, 0, f2 - f1, g1, g2);
    assert q[..0] == [] && NonKeys(q[..0]) == [];
    if f2 != f1 {
      assert q[1] == p[f2] && q[2..] == NonKeys(p[..f1]) + p[f2 + 1..];
    } else {
      assert q[1..] == PutBackEvents(p, f1, f2);
    }
  }

  lemma {:induction false} DeliveredIsFound(p: seq<Event>, f1: nat, f2: nat)
    requires Found(p, f1, f2)
    ensures Found([p[f1]] + PutBackEvents(p, f1, f2), 0, f2 - f1)
  {
    var nonKeys, tail := NonKeys(p[..f1]), p[f2 + 1..];
    NonKeysAreNoKeys(p[..f1]);
    hide NonKeys;
    var q := [p[f1]] + (Partner(p, f1, f2) + nonKeys + tail);
    assert q[0] == p[f1] && q[..0] == [];
    if f2 != f1 {
      assert q[1] == p[f2] && q[2..] == nonKeys + tail;
      assert PairAt(q, 0);
    } else if nonKeys != [] {
      assert q[1] == nonKeys[0];
    } else {
      assert q[1..] == tail;
      if |q| > 1 {
        assert q[1] == p[f1 + 1];
      }
    }
  }
}
