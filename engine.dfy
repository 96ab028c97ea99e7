/**
 * The parts of the game engine (Unity) that the hook controller touches, as values:
 * vectors, rigidbody references, the two joint component kinds with the configuration
 * fields the controller writes, the components attached to one game object, collisions
 * and impulse requests. Nothing here computes with positions or forces; they are only copied.
 */
module Engine {
  import opened Wrappers

  /** A world-space vector (Unity's Vector3). The model never does arithmetic on it. */
  datatype Vec3 = Vec3(x: real, y: real, z: real)

  /** Vector3.forward */
  const Forward := Vec3(0.0, 0.0, 1.0)
  /** Vector3.right, the axis a newly added ConfigurableJoint starts with */
  const Right := Vec3(1.0, 0.0, 0.0)
  /** Vector3.zero */
  const Zero := Vec3(0.0, 0.0, 0.0)

  /** A rigidbody of the scene, referenced and never owned by the hook. */
  datatype BodyRef = BodyRef(id: nat)

  /** ConfigurableJointMotion */
  datatype JointMotion = Locked | Limited | Free

  /** SoftJointLimit: the distance limit of a configurable joint. */
  datatype SoftJointLimit = SoftJointLimit(limit: real, bounciness: real, contactDistance: real)

  /** SoftJointLimitSpring: the spring that makes a configurable joint's limit soft. */
  datatype SoftJointLimitSpring = SoftJointLimitSpring(spring: real, damper: real)

  /** The configuration of a ConfigurableJoint component that the controller reads or writes. */
  datatype ConfigurableJoint = ConfigurableJoint(
    axis: Vec3,
    connectedBody: Option<BodyRef>,
    anchor: Vec3,
    xMotion: JointMotion,
    yMotion: JointMotion,
    zMotion: JointMotion,
    angularXMotion: JointMotion,
    angularYMotion: JointMotion,
    angularZMotion: JointMotion,
    linearLimit: SoftJointLimit,
    linearLimitSpring: SoftJointLimitSpring)

  /** The values a ConfigurableJoint has right after AddComponent. */
  const NewConfigurableJoint := ConfigurableJoint(
    Right, None, Zero, Free, Free, Free, Free, Free, Free,
    SoftJointLimit(0.0, 0.0, 0.0), SoftJointLimitSpring(0.0, 0.0))

  /** A FixedJoint component: a rigid link to its connected body (to the world when absent). */
  datatype FixedJoint = FixedJoint(connectedBody: Option<BodyRef>)

  /** The values a FixedJoint has right after AddComponent. */
  const NewFixedJoint := FixedJoint(None)

  /** A joint component of one of the two kinds the hook uses. */
  datatype Joint = Configurable(configurable: ConfigurableJoint) | Fixed(fixed: FixedJoint)

  /** Identity of a component on a game object; identities are never reused. */
  type ComponentId = nat

  /** The live joint components of one game object, by identity. */
  type Components = map<ComponentId, Joint>

  /**
   * Unity's `reference != null` for a component reference: it was assigned, and the component
   * it designates has not been destroyed since. A destroyed component compares equal to null.
   */
  predicate IsAlive(components: Components, ref: Option<ComponentId>)
  {
    ref.Some? && ref.value in components
  }

  /**
   * Object.Destroy on a component reference: the designated component stops existing; a null
   * or already destroyed reference is ignored. Every other component is kept as it was.
   */
  function Destroy(components: Components, ref: Option<ComponentId>): (r: Components)
    ensures !IsAlive(r, ref)
    ensures forall id :: id in r <==> id in components && ref != Some(id)
    ensures forall id :: id in r ==> r[id] == components[id]
  {
    if ref.Some? then components - {ref.value} else components
  }

  /** A collision reported to OnCollisionEnter: the struck collider's tag and its rigidbody, if any. */
  datatype Collision = Collision(colliderTag: string, rigidbody: Option<BodyRef>)

  /** A request Rigidbody.AddForce(magnitude * direction, ForceMode.Impulse); its effect is not modelled. */
  datatype Impulse = Impulse(magnitude: real, direction: Vec3)
}
