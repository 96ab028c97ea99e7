/**
 * Properties of the hook that relate several calls: the invariant every call keeps, the
 * resulting bound of one tether and one anchor joint on every reachable hook, the
 * one-way exit from Idle, and the scenarios in which the code departs from the
 * intended lifecycle.
 */
module HookProperties {
  import opened Wrappers
  import opened Engine
  import opened HookSpec

  /** Every live ConfigurableJoint of a well-formed hook is its referenced tether, and likewise for FixedJoints. */
  lemma WellFormedJointSets(h: Hook)
    requires WellFormed(h)
    ensures TetherIds(h) == (if TetherAlive(h) then {h.jointWithPlayer.value} else {})
    ensures AnchorIds(h) == (if AnchorAlive(h) then {h.attachedToJoint.value} else {})
  {
  }

  /** At most one tether joint and at most one anchor joint are alive on a well-formed hook. */
  lemma AtMostOneJointOfEachKind(h: Hook)
    requires WellFormed(h)
    ensures |TetherIds(h)| <= 1 && |AnchorIds(h)| <= 1
  {
    WellFormedJointSets(h);
  }

  /** Start establishes the invariant, whatever ConfigurableJoint the game object carries. */
  lemma StartEstablishesInv(s: Settings, p: Prefab)
    ensures Inv(s, Start(p))
  {
  }

  /** Each button edge keeps the invariant. */
  lemma ButtonActionPreservesInv(s: Settings, h: Hook, pressed: bool, aim: Aim)
    requires Inv(s, h)
    ensures Inv(s, HookButtonAction(s, h, pressed, aim))
  {
  }

  /** Each collision keeps the invariant, in every state. */
  lemma CollisionPreservesInv(s: Settings, h: Hook, c: Collision)
    requires Inv(s, h)
    ensures Inv(s, OnCollisionEnter(h, c))
  {
  }

  /** Every call of the engine into the controller keeps the invariant. */
  lemma StepPreservesInv(s: Settings, h: Hook, e: Event)
    requires Inv(s, h)
    ensures Inv(s, Step(s, h, e))
  {
  }

  /** Any sequence of calls keeps the invariant. */
  lemma {:induction false} RunPreservesInv(s: Settings, h: Hook, events: seq<Event>)
    requires Inv(s, h)
    ensures Inv(s, Run(s, h, events))
    decreases |events|
  {
    if events != [] {
      StepPreservesInv(s, h, events[0]);
      RunPreservesInv(s, Step(s, h, events[0]), events[1..]);
    }
  }

  /**
   * Whatever the engine calls after Start, in whatever order: at most one tether joint and
   * at most one anchor joint are alive, a thrown hook is tied to the player by the rope,
   * and a live anchor joint means the hook is Attached or Released.
   */
  lemma ReachableHooksHaveAtMostOneJointOfEachKind(s: Settings, p: Prefab, events: seq<Event>)
    ensures var h := Run(s, Start(p), events);
      && |TetherIds(h)| <= 1 && |AnchorIds(h)| <= 1
      && (h.state == Throwed ==> HasTether(h) && IsRope(s, Tether(h)))
      && (AnchorIds(h) != {} ==> h.state in {Attached, Released})
  {
    StartEstablishesInv(s, p);
    RunPreservesInv(s, Start(p), events);
    AtMostOneJointOfEachKind(Run(s, Start(p), events));
    WellFormedJointSets(Run(s, Start(p), events));
  }

  /**
   * Whatever the engine calls after Start: the hook is thrown at most once, and once it
   * has been thrown it stays tied to the player by the configured rope, in Throwed,
   * Attached and Released alike, since the rope is destroyed only by ChargeHook in Idle.
   */
  lemma ReachableThrownHooksKeepTheirRope(s: Settings, p: Prefab, events: seq<Event>)
    ensures var h := Run(s, Start(p), events);
      && |h.impulses| <= 1
      && (h.impulses != [] ==> h.state in {Throwed, Attached, Released} && HasTether(h) && IsRope(s, Tether(h)))
      && (h.impulses != [] ==> |TetherIds(h)| == 1)
  {
    StartEstablishesInv(s, p);
    RunPreservesInv(s, Start(p), events);
    WellFormedJointSets(Run(s, Start(p), events));
  }

  /**
   * Whatever the engine called before, a Hookable contact while the hook is Throwed
   * attaches it to the struck body with exactly one anchor joint.
   */
  lemma ReachableThrownHookAttachesOnHookableContact(s: Settings, p: Prefab, events: seq<Event>, hookable: Collision)
    requires hookable.colliderTag == HookableTag
    requires Run(s, Start(p), events).state == Throwed
    ensures var r := OnCollisionEnter(Run(s, Start(p), events), hookable);
      && r.state == Attached && HasAnchor(r) && Anchor(r).connectedBody == hookable.rigidbody
      && |AnchorIds(r)| == 1
  {
    var h := Run(s, Start(p), events);
    StartEstablishesInv(s, p);
    RunPreservesInv(s, Start(p), events);
    CollisionPreservesInv(s, h, hookable);
    WellFormedJointSets(OnCollisionEnter(h, hookable));
  }

  /**
   * A contact while the hook is still Idle, Hookable or not, moves it out of Idle for good:
   * since ChargeHook is reached only from Idle, such a hook can never be charged or thrown.
   */
  lemma ContactWhileIdleRulesOutCharging(s: Settings, h: Hook, c: Collision, events: seq<Event>)
    requires h.state == Idle
    ensures OnCollisionEnter(h, c).state in {Attached, Released}
    ensures Run(s, OnCollisionEnter(h, c), events).state != Idle
  {
    IdleIsNeverReentered(s, OnCollisionEnter(h, c), events);
  }

  /** Only Start produces Idle: no call leaves a hook Idle that was not Idle before. */
  lemma StepNeverEntersIdle(s: Settings, h: Hook, e: Event)
    requires h.state != Idle
    ensures Step(s, h, e).state != Idle
  {
  }

  /**
   * Once the hook has left Idle it never returns there, so ChargeHook runs at most once in
   * the hook's lifetime: a hook that has been thrown cannot be charged again.
   */
  lemma {:induction false} IdleIsNeverReentered(s: Settings, h: Hook, events: seq<Event>)
    requires h.state != Idle
    ensures Run(s, h, events).state != Idle
    decreases |events|
  {
    if events != [] {
      StepNeverEntersIdle(s, h, events[0]);
      IdleIsNeverReentered(s, Step(s, h, events[0]), events[1..]);
    }
  }

  /**
   * The first throw from a fresh hook with the default settings: after press and release
   * the hook is thrown with gravity on, exactly one rope of length 15 to the player exists,
   * and exactly one impulse of magnitude 10 along the camera's forward direction was requested.
   */
  lemma DefaultThrowScenario(p: Prefab, aim: Aim)
    requires aim.cameraForward == Forward
    ensures var h := Run(DefaultSettings, Start(p), [ButtonEdge(true, aim), ButtonEdge(false, aim)]);
      && h.state == Throwed && h.useGravity && h.lineEnabled
      && HasTether(h) && Tether(h).linearLimit.limit == 15.0
      && Tether(h).linearLimitSpring == SoftJointLimitSpring(0.0, 0.0)
      && Tether(h).anchor == Vec3(-0.6, 0.7, 0.0)
      && |TetherIds(h)| == 1 && AnchorIds(h) == {}
      && h.impulses == [Impulse(10.0, Vec3(0.0, 0.0, 1.0))]
  {
    var h0 := Start(p);
    var h1 := HookButtonAction(DefaultSettings, h0, true, aim);
    var h2 := HookButtonAction(DefaultSettings, h1, false, aim);
    var events := [ButtonEdge(true, aim), ButtonEdge(false, aim)];
    assert Run(DefaultSettings, h0, events) == h2 by {
      assert events[1..] == [ButtonEdge(false, aim)];
      assert Run(DefaultSettings, h1, [ButtonEdge(false, aim)]) == Run(DefaultSettings, h2, []);
    }
    StartEstablishesInv(DefaultSettings, p);
    ButtonActionPreservesInv(DefaultSettings, h0, true, aim);
    WellFormedJointSets(h2);
  }

  /** Pressing the button again while the hook flies changes nothing: no second tether, still Throwed. */
  lemma SecondPressWhileThrownIsIgnored(s: Settings, h: Hook, aim: Aim)
    requires Inv(s, h) && h.state == Throwed
    ensures HookButtonAction(s, h, true, aim) == h
    ensures |TetherIds(HookButtonAction(s, h, true, aim))| == 1
  {
    WellFormedJointSets(h);
  }

  /**
   * Attaching and then pressing the button leaves the hook Attached with no anchor joint
   * and the rope still alive: ReleaseHook never moves the hook to Released.
   */
  lemma ReleaseKeepsAttachedState(s: Settings, h: Hook, hookable: Collision, aim: Aim)
    requires Inv(s, h) && h.state == Throwed
    requires hookable.colliderTag == HookableTag
    ensures var r := HookButtonAction(s, OnCollisionEnter(h, hookable), true, aim);
      && r.state == Attached && !AnchorAlive(r) && AnchorIds(r) == {}
      && HasTether(r) && Tether(r) == Tether(h)
  {
  }

  /**
   * A released anchor reference compares equal to null, so a later Hookable contact attaches
   * the hook again with a new anchor joint, and still only one is alive.
   */
  lemma ReattachAfterRelease(s: Settings, h: Hook, hookable: Collision, aim: Aim)
    requires Inv(s, h) && h.state == Attached
    requires hookable.colliderTag == HookableTag
    ensures var r := OnCollisionEnter(HookButtonAction(s, h, true, aim), hookable);
      && r.state == Attached && HasAnchor(r) && Anchor(r).connectedBody == hookable.rigidbody
      && |AnchorIds(r)| == 1
  {
  }

  /**
   * A collision while the hook is still held attaches it although no rope exists: the
   * intended "a tether exists exactly in Throwed, Attached and Released" does not hold of the code.
   */
  lemma HookableContactWhileHoldingAttachesWithoutRope(s: Settings, h: Hook, hookable: Collision)
    requires Inv(s, h) && h.state == Holding
    requires hookable.colliderTag == HookableTag
    ensures var r := OnCollisionEnter(h, hookable);
      r.state == Attached && HasAnchor(r) && TetherIds(r) == {}
  {
  }

  /**
   * A second contact while attached marks the hook Released but keeps its anchor joint:
   * the intended "an anchor exists exactly in Attached" does not hold of the code either.
   */
  lemma SecondContactWhileAttachedKeepsAnchor(s: Settings, h: Hook, c: Collision)
    requires Inv(s, h) && h.state == Attached && HasAnchor(h)
    ensures var r := OnCollisionEnter(h, c);
      r.state == Released && HasAnchor(r) && Anchor(r) == Anchor(h) && AnchorIds(r) == AnchorIds(h)
  {
  }
}
