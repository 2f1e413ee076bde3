/**
 * The admission rule of the server, stated over the list of handler states
 * in registration order. The server serves a handler when the number of
 * LIVE handlers at or before its own position is at most the ceiling of 5;
 * the count is recomputed from the list on every check.
 */
module Admission {
  import opened ThreadStates

  /** The number of handlers that may be served at the same time. */
  const SupportedThreadNum: nat := 5

  /** The number of LIVE entries. */
  function LiveCount(states: seq<ThreadState>): (n: nat)
    ensures n <= |states|
    decreases |states|
  {
    if states == [] then 0
    else LiveCount(states[..|states| - 1]) + (if states[|states| - 1] == Live then 1 else 0)
  }

  /** The handler at position `i` is admitted: the running LIVE count when
      the scan reaches it, itself included, is within the ceiling. */
  predicate Admitted(states: seq<ThreadState>, i: nat)
    requires i < |states|
  {
    LiveCount(states[..i + 1]) <= SupportedThreadNum
  }

  /** The positions of LIVE handlers that are admitted. */
  function AdmittedLive(states: seq<ThreadState>): set<nat> {
    set i: nat | i < |states| && states[i] == Live && Admitted(states, i)
  }

  function Min(a: nat, b: nat): nat {
    if a <= b then a else b
  }

  /** Counting one more entry adds one exactly when it is LIVE. */
  lemma LiveCountSnoc(states: seq<ThreadState>, x: ThreadState)
    ensures LiveCount(states + [x]) == LiveCount(states) + (if x == Live then 1 else 0)
  {
    assert (states + [x])[..|states|] == states;
  }

  /** No LIVE entry is counted exactly when every entry is DEAD. */
  lemma {:induction false} LiveCountZero(states: seq<ThreadState>)
    ensures LiveCount(states) == 0 <==> forall i :: 0 <= i < |states| ==> states[i] == Dead
    decreases |states|
  {
    if states != [] {
      var init := states[..|states| - 1];
      LiveCountZero(init);
      assert forall i :: 0 <= i < |init| ==> init[i] == states[i];
    }
  }

  /** The running count one entry further along the list. */
  lemma LiveCountStep(states: seq<ThreadState>, i: nat)
    requires i < |states|
    ensures LiveCount(states[..i + 1]) == LiveCount(states[..i]) + (if states[i] == Live then 1 else 0)
  {
    assert states[..i + 1] == states[..i] + [states[i]];
    LiveCountSnoc(states[..i], states[i]);
  }

  /** Running counts never decrease along the list. */
  lemma {:induction false} LiveCountMonotone(states: seq<ThreadState>, i: nat, j: nat)
    requires i <= j <= |states|
    ensures LiveCount(states[..i]) <= LiveCount(states[..j])
    decreases j - i
  {
    if i < j {
      LiveCountMonotone(states, i, j - 1);
      assert states[..j] == states[..j - 1] + [states[j - 1]];
      LiveCountSnoc(states[..j - 1], states[j - 1]);
    }
  }

  /** Marking one entry DEAD never increases the count. */
  lemma {:induction false} LiveCountMarkDead(states: seq<ThreadState>, j: nat)
    requires j < |states|
    ensures LiveCount(states[j := Dead]) <= LiveCount(states)
    decreases |states|
  {
    var n := |states|;
    var t := states[j := Dead];
    assert t[..n - 1] == if j < n - 1 then states[..n - 1][j := Dead] else states[..n - 1];
    if j < n - 1 {
      LiveCountMarkDead(states[..n - 1], j);
    }
  }

  /** Registering a new handler at the end never changes the admission of
      the handlers already registered. */
  lemma AppendKeepsAdmission(states: seq<ThreadState>, x: ThreadState, i: nat)
    requires i < |states|
    ensures Admitted(states + [x], i) == Admitted(states, i)
  {
    assert (states + [x])[..i + 1] == states[..i + 1];
  }

  /** Another handler (or the handler itself) turning DEAD never revokes
      the admission of a handler. */
  lemma DeathKeepsAdmission(states: seq<ThreadState>, j: nat, i: nat)
    requires i < |states| && j < |states|
    requires Admitted(states, i)
    ensures Admitted(states[j := Dead], i)
  {
    var t := states[j := Dead];
    if j <= i {
      assert t[..i + 1] == states[..i + 1][j := Dead];
      LiveCountMarkDead(states[..i + 1], j);
    } else {
      assert t[..i + 1] == states[..i + 1];
    }
  }

  /** First come, first served: a handler registered before an admitted
      one is admitted too. */
  lemma EarlierAdmitted(states: seq<ThreadState>, i: nat, j: nat)
    requires i <= j < |states|
    requires Admitted(states, j)
    ensures Admitted(states, i)
  {
    LiveCountMonotone(states, i + 1, j + 1);
  }

  /** While at most 5 handlers are LIVE, every handler is admitted. */
  lemma AllAdmittedUnderCeiling(states: seq<ThreadState>, i: nat)
    requires i < |states|
    requires LiveCount(states) <= SupportedThreadNum
    ensures Admitted(states, i)
  {
    LiveCountMonotone(states, i + 1, |states|);
    assert states[..|states|] == states;
  }

  /** A LIVE handler preceded by 5 or more LIVE handlers is refused. */
  lemma LateLiveRefused(states: seq<ThreadState>, i: nat)
    requires i < |states| && states[i] == Live
    requires LiveCount(states[..i]) >= SupportedThreadNum
    ensures !Admitted(states, i)
  {
    assert states[..i + 1] == states[..i] + [states[i]];
    LiveCountSnoc(states[..i], states[i]);
  }

  /** A DEAD handler is admitted exactly when at most 5 LIVE handlers
      precede it: the scan never counts the target itself then. */
  lemma DeadTargetAdmission(states: seq<ThreadState>, i: nat)
    requires i < |states| && states[i] == Dead
    ensures Admitted(states, i) <==> LiveCount(states[..i]) <= SupportedThreadNum
  {
    assert states[..i + 1] == states[..i] + [states[i]];
    LiveCountSnoc(states[..i], states[i]);
  }

  /** Registering one more handler adds its position to the admitted
      LIVE ones exactly when it is LIVE and within the ceiling. */
  lemma AdmittedLiveSnoc(init: seq<ThreadState>, x: ThreadState)
    ensures AdmittedLive(init + [x]) ==
      AdmittedLive(init) + (if x == Live && LiveCount(init + [x]) <= SupportedThreadNum then {|init|} else {})
  {
    var s := init + [x];
    var a, b := AdmittedLive(s), AdmittedLive(init);
    var e: set<nat> := if x == Live && LiveCount(s) <= SupportedThreadNum then {|init|} else {};
    assert s[..|init| + 1] == s;
    forall i: nat
      ensures (i in a) == (i in b + e)
    {
      if i < |init| {
        AppendKeepsAdmission(init, x, i);
        assert s[i] == init[i];
      }
    }
    assert a == b + e;
  }

  /** Exactly min(LIVE count, 5) LIVE handlers are admitted: never more
      than 5, and all of them while there are at most 5. */
  lemma {:induction false} AdmittedLiveSize(states: seq<ThreadState>)
    ensures |AdmittedLive(states)| == Min(LiveCount(states), SupportedThreadNum)
    decreases |states|
  {
    if states != [] {
      var n := |states|;
      var init, x := states[..n - 1], states[n - 1];
      assert states == init + [x];
      AdmittedLiveSize(init);
      AdmittedLiveSnoc(init, x);
      LiveCountSnoc(init, x);
      assert n - 1 !in AdmittedLive(init);
    }
  }

  /** A list of LIVE entries only counts all of them. */
  lemma {:induction false} LiveCountAllLive(states: seq<ThreadState>)
    requires forall i :: 0 <= i < |states| ==> states[i] == Live
    ensures LiveCount(states) == |states|
    decreases |states|
  {
    if states != [] {
      LiveCountAllLive(states[..|states| - 1]);
    }
  }

  /** Six handlers all LIVE at once: the first five are served, the sixth
      is refused. */
  lemma SixConcurrentConnections()
    ensures forall i :: 0 <= i < 5 ==> Admitted([Live, Live, Live, Live, Live, Live], i)
    ensures !Admitted([Live, Live, Live, Live, Live, Live], 5)
    ensures |AdmittedLive([Live, Live, Live, Live, Live, Live])| == 5
  {
    var s := [Live, Live, Live, Live, Live, Live];
    LiveCountAllLive(s[..5]);
    LateLiveRefused(s, 5);
    forall i | 0 <= i < 5 ensures Admitted(s, i) {
      AllAdmittedUnderCeiling(s[..5], i);
      assert s[..5][..i + 1] == s[..i + 1];
    }
    AdmittedLiveSize(s);
    LiveCountAllLive(s);
  }
}
