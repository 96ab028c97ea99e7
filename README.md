# Grappling hook controller

A Dafny model of the grappling hook of Project-Tower, `HookController` in
`Assets/Scripts/HookController.cs`. The hook moves through five states: `Idle`, `Holding`, `Throwed`,
`Attached` and `Released`. Three kinds of call drive it:
- button edges (`HookButtonAction`),
- collisions (`OnCollisionEnter`),
- per-frame callbacks (`Update`, `LateUpdate`).

Each transition does some of the following:
- adds or destroys joint components on the hook's game object: a `ConfigurableJoint` rope to the player, or a `FixedJoint` anchor to the struck body;
- toggles the hook rigidbody's gravity and the rope line;
- moves the hook.

Files:

- `wrappers.dfy`: `Option`, used for references that may be null.
- `engine.dfy` (module `Engine`): the engine values the controller touches.
  - Vectors, which are only copied.
  - Rigidbody references.
  - The configuration of both joint kinds, with Unity's values for a freshly added component.
  - The joint components of a game object, as a map from a never-reused identity to the joint.
  - `Destroy`, and what `!= null` means for a component reference.
  - Collisions and impulse requests.
- `hook_spec.dfy` (module `HookSpec`): the controller's state as a value `Hook`.
  - There is one function per method of the source, and its `ensures` say what that transition means.
  - `WellFormed` and `Inv` are the invariant.
  - `Step` and `Run` apply a sequence of engine calls.
- `hook_properties.dfy` (module `HookProperties`): lemmas that relate several calls.
- `hook_controller.dfy` (module `HookControllerModel`): the class `HookController`.
  - Its fields are updated in place, as in the source.
  - Every method is proved to leave exactly the state the matching `HookSpec` function gives.
  - The four entry points also keep `Valid()`, the invariant.
  - A client method shows a throw, an attach and a press, using only the contracts.

Joints are components with an identity, not plain optional records. Unity's `AddComponent` really does add
another component, so "at most one rope and at most one anchor" is something the code has to maintain.
`ReachableHooksHaveAtMostOneJointOfEachKind` proves that it does, for every sequence of calls after `Start`.

A reference to a destroyed component keeps its identity. It compares equal to null because that identity
is no longer among the live components. This is how `ReleaseHook` leaves `m_attachedToJoint` behind, and
how the guard at line 180 then sees it as null.

Inputs from other objects become parameters, as an `Aim`:
- the shoot point's position (`m_hookShootPosition.position`);
- the main camera's forward direction.

`Start` receives as a `Prefab` what the game object already carries: at most one `ConfigurableJoint`, the
gravity flag, the line renderer and the position.

### Where the code and the intended lifecycle differ (the model follows the code)

- Pressing the button in `Attached` destroys the anchor joint, but the state stays `Attached`.
  `ReleaseHook` never assigns the state. See `ReleaseKeepsAttachedState`.
- `OnCollisionEnter` is not gated on the state.
  - A contact while the hook is still held attaches it with no rope (`HookableContactWhileHoldingAttachesWithoutRope`).
  - A second contact while attached sets `Released` but keeps the anchor joint (`SecondContactWhileAttachedKeepsAnchor`).
  - So neither "a rope exists exactly in Throwed, Attached and Released" nor "an anchor exists exactly in Attached" holds.
  - A contact while the hook is still `Idle`, `Hookable` or not, moves it to `Attached` or `Released`. From there it can never be charged, because `ChargeHook` is reached only from `Idle` (`ContactWhileIdleRulesOutCharging`).
  - What does hold: at most one of each kind, a `Throwed` hook is always tied by the configured rope, a live anchor joint means `Attached` or `Released`, and a `Hookable` contact while `Throwed` always attaches (`ReachableThrownHookAttachesOnHookableContact`).
  - Once thrown, the hook keeps its configured rope in `Throwed`, `Attached` and `Released` alike (`ReachableThrownHooksKeepTheirRope`).
- Nothing but `Start` leads to `Idle` (`IdleIsNeverReentered`). So a hook is charged at most once in its lifetime, and it is thrown at most once: at most one impulse is ever requested (`ReachableThrownHooksKeepTheirRope`).
- An anchor released by a press is re-created by the next `Hookable` contact (`ReattachAfterRelease`).

## Model

| member | source | states |
|---|---|---|
| Engine.Destroy | Assets/Scripts/HookController.cs:118 | the destroyed component no longer compares non-null; every other component is kept unchanged (also the destruction of the anchor at line 147) |
| HookSpec.Start | Assets/Scripts/HookController.cs:49-56 | the hook starts Idle; its tether reference is the ConfigurableJoint the game object carries, if any, and null otherwise; no anchor joint exists; gravity, line flag, line positions and position are the game object's; no impulse was requested |
| HookSpec.SetLinePositions | Assets/Scripts/HookController.cs:109-113 | line position 0 is the shoot point and position 1 is the hook; nothing else changes |
| HookSpec.ChargeHook | Assets/Scripts/HookController.cs:115-122 | state Holding, gravity off; the referenced tether is destroyed and the reference cleared; on a well-formed hook no ConfigurableJoint is left and anchors are untouched |
| HookSpec.ShootHook | Assets/Scripts/HookController.cs:124-135 | state Throwed, gravity on, line shown from the shoot point to the hook, one impulse of the shoot force along the camera forward requested; exactly one new tether, configured as the rope |
| HookSpec.RebuildJoint | Assets/Scripts/HookController.cs:151-169 | adds one fresh ConfigurableJoint and references it; the joint is connected to the player rigidbody at the hook anchor, with limited linear motion, free angular motion, the hook length as limit and the rope spring and damper; other components are unchanged |
| HookSpec.ChangeLengthJoint | Assets/Scripts/HookController.cs:171-176 | only the linear-limit distance of the tether is replaced; every other field of that joint, and every other component, is unchanged |
| HookSpec.AttachHook | Assets/Scripts/HookController.cs:137-141 | adds one fresh FixedJoint, connected to the given rigidbody, and references it; nothing else changes |
| HookSpec.ReleaseHook | Assets/Scripts/HookController.cs:143-149 | the anchor joint is destroyed if it is alive; the state and the tether are unchanged |
| HookSpec.HookButtonAction | Assets/Scripts/HookController.cs:87-107 | press in Idle: Holding with no tether; release in Holding: Throwed with exactly one rope and one impulse; press in Attached: the anchor is gone, the state and the tether are kept; every other edge changes nothing |
| HookSpec.OnCollisionEnter | Assets/Scripts/HookController.cs:178-188 | in any state: a Hookable contact while no anchor is alive gives Attached and exactly one anchor to the struck body; any other contact gives Released and touches no joint |
| HookSpec.Update | Assets/Scripts/HookController.cs:58-77 | Idle hides the line, Holding moves the hook to the shoot point, the other states change nothing |
| HookSpec.LateUpdate | Assets/Scripts/HookController.cs:79-85 | exactly in Throwed, Attached and Released the line runs from the shoot point to the hook; otherwise nothing changes |
| HookProperties.WellFormedJointSets | Assets/Scripts/HookController.cs:115-119 | on a well-formed hook the only live ConfigurableJoint is the referenced tether, and the only live FixedJoint the referenced anchor |
| HookProperties.AtMostOneJointOfEachKind | Assets/Scripts/HookController.cs:151-153 | a well-formed hook has at most one tether joint and at most one anchor joint |
| HookProperties.StartEstablishesInv | Assets/Scripts/HookController.cs:49-56 | Start establishes the invariant |
| HookProperties.ButtonActionPreservesInv | Assets/Scripts/HookController.cs:87-107 | every button edge keeps the invariant (ShootHook is reached only from Holding, where no tether is referenced) |
| HookProperties.CollisionPreservesInv | Assets/Scripts/HookController.cs:178-188 | every collision keeps the invariant (the null guard prevents a second anchor joint) |
| HookProperties.StepPreservesInv | Assets/Scripts/HookController.cs:58-188 | every engine call keeps the invariant |
| HookProperties.RunPreservesInv | Assets/Scripts/HookController.cs:58-188 | every sequence of engine calls keeps the invariant |
| HookProperties.ReachableHooksHaveAtMostOneJointOfEachKind | Assets/Scripts/HookController.cs:49-188 | after Start and any sequence of calls, at most one tether and at most one anchor joint are alive, a Throwed hook is tied to the player by the configured rope, and a live anchor joint means Attached or Released |
| HookProperties.ReachableThrownHooksKeepTheirRope | Assets/Scripts/HookController.cs:87-188 | after Start and any sequence of calls, at most one impulse was requested, and once one was the hook is Throwed, Attached or Released with exactly one live tether, configured as the rope |
| HookProperties.ReachableThrownHookAttachesOnHookableContact | Assets/Scripts/HookController.cs:178-183 | after Start and any sequence of calls, a Hookable contact while Throwed gives Attached with exactly one anchor joint, connected to the struck body |
| HookProperties.ContactWhileIdleRulesOutCharging | Assets/Scripts/HookController.cs:178-188 | a contact while Idle gives Attached or Released, and no later sequence of calls returns the hook to Idle, where alone it is charged |
| HookProperties.StepNeverEntersIdle | Assets/Scripts/HookController.cs:115-117 | no call makes a non-Idle hook Idle |
| HookProperties.IdleIsNeverReentered | Assets/Scripts/HookController.cs:87-188 | once out of Idle, no sequence of calls returns the hook to Idle |
| HookProperties.DefaultThrowScenario | Assets/Scripts/HookController.cs:22-47 | with the default settings, press then release gives Throwed with gravity on, one rope with limit 15, spring and damper 0 and anchor (-0.6, 0.7, 0), and one impulse of 10 along (0, 0, 1) |
| HookProperties.SecondPressWhileThrownIsIgnored | Assets/Scripts/HookController.cs:89-101 | a press while Throwed changes nothing and leaves exactly one tether |
| HookProperties.ReleaseKeepsAttachedState | Assets/Scripts/HookController.cs:143-149 | attach then press: still Attached, no anchor joint, the rope unchanged |
| HookProperties.ReattachAfterRelease | Assets/Scripts/HookController.cs:178-183 | after a release, a Hookable contact attaches again to the struck body, with exactly one anchor joint |
| HookProperties.HookableContactWhileHoldingAttachesWithoutRope | Assets/Scripts/HookController.cs:178-183 | a Hookable contact while Holding gives Attached with an anchor and no tether joint |
| HookProperties.SecondContactWhileAttachedKeepsAnchor | Assets/Scripts/HookController.cs:184-187 | any contact while Attached with an anchor gives Released with that anchor unchanged |
| HookControllerModel.HookController.Start | Assets/Scripts/HookController.cs:49-56 | the fields after Start are HookSpec.Start's, and the invariant holds |
| HookControllerModel.HookController.Update | Assets/Scripts/HookController.cs:58-77 | the new fields are HookSpec.Update of the old ones; the invariant is kept |
| HookControllerModel.HookController.LateUpdate | Assets/Scripts/HookController.cs:79-85 | the new fields are HookSpec.LateUpdate of the old ones; the invariant is kept |
| HookControllerModel.HookController.HookButtonAction | Assets/Scripts/HookController.cs:87-107 | the new fields are HookSpec.HookButtonAction of the old ones; the invariant is kept |
| HookControllerModel.HookController.SetLinePositions | Assets/Scripts/HookController.cs:109-113 | the new fields are HookSpec.SetLinePositions of the old ones |
| HookControllerModel.HookController.ChargeHook | Assets/Scripts/HookController.cs:115-122 | the new fields are HookSpec.ChargeHook of the old ones |
| HookControllerModel.HookController.ShootHook | Assets/Scripts/HookController.cs:124-135 | the new fields are HookSpec.ShootHook of the old ones |
| HookControllerModel.HookController.AddComponent | Assets/Scripts/HookController.cs:139 | the new component gets the next fresh identity; the other components are kept |
| HookControllerModel.HookController.AttachHook | Assets/Scripts/HookController.cs:137-141 | the new fields are HookSpec.AttachHook of the old ones |
| HookControllerModel.HookController.ReleaseHook | Assets/Scripts/HookController.cs:143-149 | the new fields are HookSpec.ReleaseHook of the old ones |
| HookControllerModel.HookController.RebuildJoint | Assets/Scripts/HookController.cs:151-169 | the new fields are HookSpec.RebuildJoint of the old ones |
| HookControllerModel.HookController.ChangeLengthJoint | Assets/Scripts/HookController.cs:171-176 | the new fields are HookSpec.ChangeLengthJoint of the old ones |
| HookControllerModel.HookController.OnCollisionEnter | Assets/Scripts/HookController.cs:178-188 | the new fields are HookSpec.OnCollisionEnter of the old ones; the invariant is kept |

## Left out

- `Assets/Scripts/PlayerController.cs` and `Assets/Scripts/InputManager.cs` are not part of this model. They hold floating-point locomotion and input-system plumbing.
- The physical effect of the shoot impulse (line 132) is left out. The model records only that one impulse, of magnitude `m_hookShootForce` along the camera's forward direction, is requested per `ShootHook`.
- How the physics engine resolves the rope's soft limit, spring and damper is left out. So are the fixed joint and gravity.
- The physics engine moves `transform.position` while the hook flies. The model does not represent that motion: only `Update` in `Holding` changes the position.
- The `Rigidbody`, `LineRenderer` and camera objects are not modelled as objects. Their `GetComponent` and `Camera.main` lookups in `Start` are left out too. The model keeps only the fields the controller sets: gravity, line flag, line positions.
- Drawing the line is left out.
- `Object.Destroy` takes effect at once in the model. Unity defers the destruction to the end of the frame; no code here reads the component in between.
- `float` settings and vectors are `real` values that are only copied. No IEEE rounding is involved.
- `m_hookIdleLength` is declared but never read by the source, so it has no effect in the model.
- Unity's null-reference exceptions are not modelled. They would occur if the line renderer, the shoot point or the camera were missing.
- HookControllerModel.HookController.ChangeLengthJoint: requires a live tether. The source would throw without one, and its only caller, `RebuildJoint`, has just created the tether.
- HookSpec.Start: the game object is taken to carry at most one `ConfigurableJoint` and no `FixedJoint`. `GetComponent` would pick one of several rope joints, and an anchor already on the game object would be invisible to the guard at line 180. Such game objects fall outside the invariant.
- Only the `ConfigurableJoint` fields the controller reads or writes are represented. These are the axis, connected body, anchor, six motion modes, linear limit and linear limit spring. Secondary axis, angular limits, drives and the rest are omitted.
