/** Interrupt priorities: `NVIC_EncodePriority` packs a preempt priority and a subpriority into the
    implemented bits, `NVIC_DecodePriority` unpacks them. */
module Nvic {
  import opened Words

  /** `__NVIC_PRIO_BITS`: the number of priority bits a device implements. */
  type PrioBits = b: nat | 1 <= b <= 8 witness 1

  function PreemptBits(prioBits: PrioBits, group: nat): nat {
    var g := And(group, 7);
    if Wrap(7 - g) > prioBits then prioBits else Wrap(7 - g)
  }

  /** The unsigned subtraction wraps and the addition wraps back. */
  function SubBits(prioBits: PrioBits, group: nat): nat {
    var g := And(group, 7);
    if Wrap(g + prioBits) < 7 then 0 else Wrap(Wrap(g - 7) + prioBits)
  }

  lemma GroupBound(group: nat)
    ensures And(group, 7) == group % 8
  {
    assert Pow2(3) == 8;
    AndLowBits(group, 3);
  }

  /** A group splits the implemented bits: up to `7 - group` of them are for the preempt priority, the
      rest for the subpriority. */
  lemma BitsAddUp(prioBits: PrioBits, group: nat)
    ensures PreemptBits(prioBits, group) == if 7 - group % 8 > prioBits then prioBits else 7 - group % 8
    ensures PreemptBits(prioBits, group) <= 7 && SubBits(prioBits, group) <= 8
    ensures PreemptBits(prioBits, group) + SubBits(prioBits, group) == prioBits
  {
    GroupBound(group);
    hide And;
    GroupBits(prioBits, And(group, 7));
  }

  lemma GroupBits(prioBits: PrioBits, g: nat)
    requires g <= 7
    ensures Wrap(7 - g) == 7 - g && Wrap(g + prioBits) == g + prioBits
    ensures g + prioBits >= 7 ==> Wrap(Wrap(g - 7) + prioBits) == g + prioBits - 7
  {
  }

  function Mask(bits: nat): nat {
    Wrap(ShiftLeft(1, bits) - 1)
  }

  function Encode(prioBits: PrioBits, group: nat, preempt: nat, sub: nat): nat {
    var preemptBits, subBits := PreemptBits(prioBits, group), SubBits(prioBits, group);
    Or(ShiftLeft(And(preempt, Mask(preemptBits)), subBits), And(sub, Mask(subBits)))
  }

  method DecodePriority(prioBits: PrioBits, priority: nat, group: nat) returns (preempt: nat, sub: nat)
    ensures Encode(prioBits, group, preempt, sub) == priority % Pow2(prioBits)
    ensures (preempt, sub) == Reduced(prioBits, group, preempt, sub)
  {
    hide And, Encode, Mask, ShiftRight, Pow2, Wrap, Reduced;
    var groupTmp := And(group, 7);
    var preemptBits := if Wrap(7 - groupTmp) > prioBits then prioBits else Wrap(7 - groupTmp);
    var subBits := if Wrap(groupTmp + prioBits) < 7 then 0 else Wrap(Wrap(groupTmp - 7) + prioBits);
    preempt := And(ShiftRight(priority, subBits), Mask(preemptBits));
    sub := And(priority, Mask(subBits));
    DecodeIsInverse(prioBits, priority, group);
  }

  /** The two fields, each reduced to the width its group gives it. */
  function Reduced(prioBits: PrioBits, group: nat, preempt: nat, sub: nat): (nat, nat) {
    (preempt % Pow2(PreemptBits(prioBits, group)), sub % Pow2(SubBits(prioBits, group)))
  }

  lemma MaskKeepsRemainder(x: nat, bits: nat)
    requires bits <= 8
    ensures 0 < Pow2(bits) <= 256 && And(x, Mask(bits)) == x % Pow2(bits) < Pow2(bits)
  {
    assert Pow2(8) == 256;
    Pow2Monotone(bits, 8);
    assert Mask(bits) == Pow2(bits) - 1;
    AndLowBits(x, bits);
  }

  lemma Pow2OfBits(prioBits: PrioBits, group: nat)
    ensures Pow2(PreemptBits(prioBits, group)) * Pow2(SubBits(prioBits, group)) == Pow2(prioBits) <= 256
  {
    BitsAddUp(prioBits, group);
    Pow2Adds(PreemptBits(prioBits, group), SubBits(prioBits, group));
    MaskKeepsRemainder(0, prioBits);
  }

  /** The encoded value is the reduced preempt priority above the reduced subpriority. */
  lemma EncodeValue(prioBits: PrioBits, group: nat, preempt: nat, sub: nat)
    ensures var (p, s) := Reduced(prioBits, group, preempt, sub);
            var unit := Pow2(SubBits(prioBits, group));
            s < unit && Encode(prioBits, group, preempt, sub) == p * unit + s < Pow2(prioBits)
    ensures var pb := if 7 - group % 8 > prioBits then prioBits else 7 - group % 8;
            Encode(prioBits, group, preempt, sub) ==
            preempt % Pow2(pb) * Pow2(prioBits - pb) + sub % Pow2(prioBits - pb)
  {
    hide And, Or, Pow2, PreemptBits, SubBits, Mask, Wrap;
    var pb, sb := PreemptBits(prioBits, group), SubBits(prioBits, group);
    var (p, s) := Reduced(prioBits, group, preempt, sub);
    BitsAddUp(prioBits, group);
    MaskKeepsRemainder(preempt, pb);
    MaskKeepsRemainder(sub, sb);
    Pow2OfBits(prioBits, group);
    PackedFits(p, s, Pow2(pb), Pow2(sb));
    WrapSmall(p * Pow2(sb));
    OrDisjoint(p, s, sb);
  }

  lemma DecodeIsInverse(prioBits: PrioBits, priority: nat, group: nat)
    ensures var pb, sb := PreemptBits(prioBits, group), SubBits(prioBits, group);
            var p, s := And(ShiftRight(priority, sb), Mask(pb)), And(priority, Mask(sb));
            Encode(prioBits, group, p, s) == priority % Pow2(prioBits) && (p, s) == Reduced(prioBits, group, p, s)
  {
    var pb, sb := PreemptBits(prioBits, group), SubBits(prioBits, group);
    BitsAddUp(prioBits, group);
    ShiftRightDivides(priority, sb);
    MaskKeepsRemainder(ShiftRight(priority, sb), pb);
    MaskKeepsRemainder(priority, sb);
    hide PreemptBits, SubBits, Pow2, Encode, Mask;
    var m, u := Pow2(pb), Pow2(sb);
    var p, s := priority / u % m, priority % u;
    ModUnique(p, m, 0, p);
    ModUnique(s, u, 0, s);
    EncodeValue(prioBits, group, p, s);
    Pow2OfBits(prioBits, group);
    PackedSplit(priority, m, u);
  }

  /** Encoded values are ordered as the pairs of reduced fields, preempt priority first. */
  lemma EncodedOrderIsLexicographic(prioBits: PrioBits, group: nat, p: nat, s: nat, p': nat, s': nat)
    ensures var (a, b) := Reduced(prioBits, group, p, s);
            var (a', b') := Reduced(prioBits, group, p', s');
            Encode(prioBits, group, p, s) < Encode(prioBits, group, p', s') <==> a < a' || (a == a' && b < b')
  {
    hide *;
    var (a, b) := Reduced(prioBits, group, p, s);
    var (a', b') := Reduced(prioBits, group, p', s');
    EncodeValue(prioBits, group, p, s);
    EncodeValue(prioBits, group, p', s');
    PackedOrder(a, b, a', b', Pow2(SubBits(prioBits, group)));
  }

  /** Encoding loses nothing but the reduction: two encodings agree exactly when the reduced fields do. */
  lemma EncodeIsInjectiveOnFields(prioBits: PrioBits, group: nat, p: nat, s: nat, p': nat, s': nat)
    ensures Encode(prioBits, group, p, s) == Encode(prioBits, group, p', s')
       <==> Reduced(prioBits, group, p, s) == Reduced(prioBits, group, p', s')
  {
    hide *;
    EncodedOrderIsLexicographic(prioBits, group, p, s, p', s');
    EncodedOrderIsLexicographic(prioBits, group, p', s', p, s);
    EncodeValue(prioBits, group, p, s);
    EncodeValue(prioBits, group, p', s');
  }

  /** Decoding an encoded pair can only return the reduced fields. */
  lemma DecodeUndoesEncode(prioBits: PrioBits, group: nat, p: nat, s: nat, preempt: nat, sub: nat)
    requires (preempt, sub) == Reduced(prioBits, group, preempt, sub)
    requires Encode(prioBits, group, preempt, sub) == Encode(prioBits, group, p, s) % Pow2(prioBits)
    ensures (preempt, sub) == Reduced(prioBits, group, p, s)
  {
    hide *;
    EncodeValue(prioBits, group, p, s);
    ModUnique(Encode(prioBits, group, p, s), Pow2(prioBits), 0, Encode(prioBits, group, p, s));
    EncodeIsInjectiveOnFields(prioBits, group, p, s, preempt, sub);
  }
}
