/** Step.cs: the two record classes of the plugin, with the structural
    `Equals` / `GetHashCode` overrides that the step map and the pending-list
    removal rely on. */
module Steps {

  /** The range of a .NET `int`. */
  newtype Int32 = x: int | -0x8000_0000 <= x < 0x8000_0000

  /** Unchecked 32-bit two's-complement wrap-around, as C# `int` addition
      behaves by default. */
  function Wrap32(x: int): (r: Int32)
    ensures (r as int - x) % 0x1_0000_0000 == 0
    ensures -0x8000_0000 <= x < 0x8000_0000 ==> r as int == x
  {
    var m := x % 0x1_0000_0000;
    if m < 0x8000_0000 then m as Int32 else (m - 0x1_0000_0000) as Int32
  }

  /** Multiples of 2^32 add up to a multiple of 2^32. */
  lemma WrapsAdd(x: int, y: int)
    requires x % 0x1_0000_0000 == 0 && y % 0x1_0000_0000 == 0
    ensures (x + y) % 0x1_0000_0000 == 0
  {
    assert x == 0x1_0000_0000 * (x / 0x1_0000_0000);
    assert y == 0x1_0000_0000 * (y / 0x1_0000_0000);
    assert x + y == 0x1_0000_0000 * (x / 0x1_0000_0000 + y / 0x1_0000_0000);
  }

  /** A host load state: its enumeration name and its ordinal. Native steps
      have ordinals 0 .. N-1; custom steps continue from N. */
  datatype Step = Step(name: string, loadState: int)

  /** A registered splice: `step` runs right after `after`. */
  datatype CustomStep = CustomStep(step: Step, after: Step)

  /** The argument of an `Equals(object)` call: null, one of the two plugin
      classes, or an instance of any other runtime type. */
  datatype Object = Null | StepObject(s: Step) | CustomStepObject(c: CustomStep) | OtherObject

  /** `Step.Equals`: false for null and for any other runtime type, otherwise
      name and load state compared field by field. */
  function StepEquals(self: Step, obj: Object): (r: bool)
    ensures r ==> obj.StepObject?
    ensures obj.StepObject? ==> (r <==> obj.s == self)
  {
    match obj
    case StepObject(s) => self.name == s.name && self.loadState == s.loadState
    case _ => false
  }

  /** `CustomStep.Equals`: both component steps compared with `Step.Equals`. */
  function CustomStepEquals(self: CustomStep, obj: Object): (r: bool)
    ensures r ==> obj.CustomStepObject?
    ensures obj.CustomStepObject? ==> (r <==> obj.c == self)
  {
    match obj
    case CustomStepObject(c) => StepEquals(self.step, StepObject(c.step)) && StepEquals(self.after, StepObject(c.after))
    case _ => false
  }

  /** `Step.GetHashCode`: the string hash of the name plus the enum hash of the
      load state (its integer value), added with wrap-around. The string hash
      is a parameter because .NET randomises it per process. */
  function StepHash(s: Step, nameHash: string -> Int32): (r: Int32)
    ensures (r as int - nameHash(s.name) as int - s.loadState) % 0x1_0000_0000 == 0
  {
    var n, w := nameHash(s.name) as int, Wrap32(s.loadState) as int;
    var r := Wrap32(n + w);
    WrapsAdd(r as int - (n + w), w - s.loadState);
    r
  }

  /** `CustomStep.GetHashCode`: the sum of the two component hashes. */
  function CustomStepHash(c: CustomStep, nameHash: string -> Int32): (r: Int32)
    ensures (r as int - nameHash(c.step.name) as int - c.step.loadState
                      - nameHash(c.after.name) as int - c.after.loadState) % 0x1_0000_0000 == 0
  {
    var a, b := StepHash(c.step, nameHash) as int, StepHash(c.after, nameHash) as int;
    var r := Wrap32(a + b);
    WrapsAdd(r as int - (a + b), a - nameHash(c.step.name) as int - c.step.loadState);
    WrapsAdd(r as int - (a + b) + (a - nameHash(c.step.name) as int - c.step.loadState),
             b - nameHash(c.after.name) as int - c.after.loadState);
    r
  }

  /** `Step.Equals` is exactly value equality of the record; this is what lets
      the rest of the model key maps by `Step` and compare with `==`. */
  lemma StepEqualsIsValueEquality(a: Step, b: Step)
    ensures StepEquals(a, StepObject(b)) <==> a == b
  {
  }

  /** A step is never equal to null, to a custom step or to a foreign object. */
  lemma StepNotEqualToOtherKinds(a: Step, c: CustomStep)
    ensures !StepEquals(a, Null)
    ensures !StepEquals(a, CustomStepObject(c))
    ensures !StepEquals(a, OtherObject)
  {
  }

  /** `Step.Equals` is reflexive, symmetric and transitive. */
  lemma StepEqualsIsEquivalence(a: Step, b: Step, c: Step)
    ensures StepEquals(a, StepObject(a))
    ensures StepEquals(a, StepObject(b)) ==> StepEquals(b, StepObject(a))
    ensures StepEquals(a, StepObject(b)) && StepEquals(b, StepObject(c)) ==> StepEquals(a, StepObject(c))
  {
  }

  /** Equal steps hash alike, whatever the string hash is. */
  lemma StepHashAgreesWithEquals(a: Step, b: Step, nameHash: string -> Int32)
    requires StepEquals(a, StepObject(b))
    ensures StepHash(a, nameHash) == StepHash(b, nameHash)
  {
  }

  /** `CustomStep.Equals` holds exactly when both the step and the after-step
      are equal, i.e. it is value equality of the record. */
  lemma CustomStepEqualsIsValueEquality(a: CustomStep, b: CustomStep)
    ensures CustomStepEquals(a, CustomStepObject(b)) <==> StepEquals(a.step, StepObject(b.step)) && StepEquals(a.after, StepObject(b.after))
    ensures CustomStepEquals(a, CustomStepObject(b)) <==> a == b
    ensures !CustomStepEquals(a, Null) && !CustomStepEquals(a, StepObject(b.step))
  {
  }

  /** Equal custom steps hash alike. */
  lemma CustomStepHashAgreesWithEquals(a: CustomStep, b: CustomStep, nameHash: string -> Int32)
    requires CustomStepEquals(a, CustomStepObject(b))
    ensures CustomStepHash(a, nameHash) == CustomStepHash(b, nameHash)
  {
  }
}
