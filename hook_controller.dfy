/**
 * HookController as an object: its fields change in place exactly as the source's do,
 * and each method is proved to leave the state the matching function of HookSpec
 * describes. The engine's entry points (Update, LateUpdate, HookButtonAction,
 * OnCollisionEnter) also keep the controller's invariant.
 */
module HookControllerModel {
  import opened Wrappers
  import opened Engine
  import opened HookSpec
  import HookProperties

  class HookController {
    /** The serialized settings, fixed for the controller's lifetime. */
    const settings: Settings

    var hookState: HookState
    /** The joint components on the hook's game object, and the identity AddComponent gives next. */
    var joints: Components
    var nextComponentId: ComponentId
    /** m_jointWithPlayer and m_attachedToJoint: references that may designate a destroyed component. */
    var jointWithPlayer: Option<ComponentId>
    var attachedToJoint: Option<ComponentId>
    /** m_rb.useGravity */
    var useGravity: bool
    /** m_lineRenderer.enabled and the line renderer's positions 0 and 1 */
    var lineEnabled: bool
    var lineStart: Vec3
    var lineEnd: Vec3
    /** transform.position */
    var position: Vec3
    /** The impulses requested from m_rb so far. */
    var impulses: seq<Impulse>

    /** The controller's state as a value. */
    function Snapshot(): Hook
      reads this
    {
      Hook(hookState, joints, nextComponentId, jointWithPlayer, attachedToJoint,
           useGravity, lineEnabled, lineStart, lineEnd, position, impulses)
    }

    ghost predicate Valid()
      reads this
    {
      Inv(settings, Snapshot())
    }

    /** The component set-up Unity performs and then Start: the state becomes Idle. */
    constructor Start(settings: Settings, prefab: Prefab)
      ensures this.settings == settings
      ensures Snapshot() == HookSpec.Start(prefab)
      ensures Valid()
    {
      this.settings := settings;
      joints := if prefab.tether.Some? then map[0 := Configurable(prefab.tether.value)] else map[];
      nextComponentId := 1;
      useGravity := prefab.useGravity;
      lineEnabled := prefab.lineEnabled;
      lineStart := prefab.lineStart;
      lineEnd := prefab.lineEnd;
      position := prefab.position;
      impulses := [];
      attachedToJoint := None;
      // GetComponent<ConfigurableJoint>()
      jointWithPlayer := if prefab.tether.Some? then Some(0) else None;
      hookState := Idle;
      new;
      HookProperties.StartEstablishesInv(settings, prefab);
    }

    method Update(aim: Aim)
      requires Valid()
      modifies this
      ensures Valid()
      ensures Snapshot() == HookSpec.Update(old(Snapshot()), aim)
    {
      match hookState
      case Idle =>
        lineEnabled := false;
      case Holding =>
        position := aim.shootPosition;
      case Throwed =>
      case Attached =>
      case Released =>
    }

    method LateUpdate(aim: Aim)
      requires Valid()
      modifies this
      ensures Valid()
      ensures Snapshot() == HookSpec.LateUpdate(old(Snapshot()), aim)
    {
      if hookState == Throwed || hookState == Attached || hookState == Released {
        SetLinePositions(aim);
      }
    }

    method HookButtonAction(buttonPressed: bool, aim: Aim)
      requires Valid()
      modifies this
      ensures Valid()
      ensures Snapshot() == HookSpec.HookButtonAction(settings, old(Snapshot()), buttonPressed, aim)
    {
      ghost var before := Snapshot();
      if buttonPressed {
        match hookState
        case Idle =>
          ChargeHook();
        case Attached =>
          ReleaseHook();
        case _ =>
      } else if hookState == Holding {
        ShootHook(aim);
      }
      HookProperties.ButtonActionPreservesInv(settings, before, buttonPressed, aim);
    }

    method SetLinePositions(aim: Aim)
      modifies this
      ensures Snapshot() == HookSpec.SetLinePositions(old(Snapshot()), aim)
    {
      lineStart := aim.shootPosition;
      lineEnd := position;
    }

    method ChargeHook()
      modifies this
      ensures Snapshot() == HookSpec.ChargeHook(old(Snapshot()))
    {
      hookState := Holding;
      joints := Destroy(joints, jointWithPlayer);
      jointWithPlayer := None;
      useGravity := false;
    }

    method ShootHook(aim: Aim)
      modifies this
      ensures Snapshot() == HookSpec.ShootHook(settings, old(Snapshot()), aim)
    {
      hookState := Throwed;
      useGravity := true;
      SetLinePositions(aim);
      lineEnabled := true;
      impulses := impulses + [Impulse(settings.hookShootForce, aim.cameraForward)];
      RebuildJoint();
    }

    /** gameObject.AddComponent: the new component gets a fresh identity. */
    method AddComponent(joint: Joint) returns (id: ComponentId)
      modifies this`joints, this`nextComponentId
      ensures id == old(nextComponentId) && nextComponentId == id + 1
      ensures joints == old(joints)[id := joint]
    {
      id := nextComponentId;
      joints := joints[id := joint];
      nextComponentId := id + 1;
    }

    method AttachHook(attachToRb: Option<BodyRef>)
      modifies this
      ensures Snapshot() == HookSpec.AttachHook(old(Snapshot()), attachToRb)
    {
      var id := AddComponent(Fixed(NewFixedJoint));
      attachedToJoint := Some(id);
      joints := joints[id := Fixed(joints[id].fixed.(connectedBody := attachToRb))];
    }

    method ReleaseHook()
      modifies this
      ensures Snapshot() == HookSpec.ReleaseHook(old(Snapshot()))
    {
      if IsAlive(joints, attachedToJoint) {
        joints := Destroy(joints, attachedToJoint);
      }
    }

    method RebuildJoint()
      modifies this
      ensures Snapshot() == HookSpec.RebuildJoint(settings, old(Snapshot()))
    {
      var id := AddComponent(Configurable(NewConfigurableJoint));
      jointWithPlayer := Some(id);
      var joint := joints[id].configurable.(axis := Forward, connectedBody := settings.playerRigidbody,
                                            anchor := settings.hookAnchor);
      joint := joint.(xMotion := Limited, yMotion := Limited, zMotion := Limited);
      joint := joint.(angularXMotion := Free, angularYMotion := Free, angularZMotion := Free);
      joints := joints[id := Configurable(joint)];

      ChangeLengthJoint(settings.hookLength);

      var jointLinearSpringLimit := joints[id].configurable.linearLimitSpring;
      jointLinearSpringLimit := jointLinearSpringLimit.(damper := settings.ropeDamper);
      jointLinearSpringLimit := jointLinearSpringLimit.(spring := settings.ropeSpringStiffness);
      joints := joints[id := Configurable(joints[id].configurable.(linearLimitSpring := jointLinearSpringLimit))];
    }

    method ChangeLengthJoint(limitDistance: real)
      requires HasTether(Snapshot())
      modifies this
      ensures Snapshot() == HookSpec.ChangeLengthJoint(old(Snapshot()), limitDistance)
    {
      var id := jointWithPlayer.value;
      var jointLinearLimit := joints[id].configurable.linearLimit;
      jointLinearLimit := jointLinearLimit.(limit := limitDistance);
      joints := joints[id := Configurable(joints[id].configurable.(linearLimit := jointLinearLimit))];
    }

    method OnCollisionEnter(collision: Collision)
      requires Valid()
      modifies this
      ensures Valid()
      ensures Snapshot() == HookSpec.OnCollisionEnter(old(Snapshot()), collision)
    {
      ghost var before := Snapshot();
      if collision.colliderTag == HookableTag && !IsAlive(joints, attachedToJoint) {
        hookState := Attached;
        AttachHook(collision.rigidbody);
      } else {
        hookState := Released;
      }
      HookProperties.CollisionPreservesInv(settings, before, collision);
    }
  }

  /**
   * A client of the class: one throw that strikes a Hookable wall, then a press.
   * What it asserts follows from the contracts above alone.
   */
  method ThrowAttachAndPress(s: Settings, p: Prefab, aim: Aim, wall: Collision)
    requires wall.colliderTag == HookableTag
  {
    var hook := new HookController.Start(s, p);
    hook.HookButtonAction(true, aim);
    assert hook.hookState == Holding && !hook.useGravity;
    hook.Update(aim);
    assert hook.position == aim.shootPosition;
    hook.HookButtonAction(false, aim);
    assert hook.hookState == Throwed && hook.useGravity && hook.lineEnabled;
    assert HasTether(hook.Snapshot()) && IsRope(s, Tether(hook.Snapshot()));
    hook.OnCollisionEnter(wall);
    assert hook.hookState == Attached && HasAnchor(hook.Snapshot());
    hook.HookButtonAction(true, aim);
    assert hook.hookState == Attached && !AnchorAlive(hook.Snapshot()) && HasTether(hook.Snapshot());
  }
}
