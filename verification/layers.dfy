/**
 * The world's layer table: up to 32 named layers and a packed matrix of
 * 2-bit collision rules, one per ordered pair of layer ids, stored in 64
 * 32-bit words (src/lib/model/world.ts: constructor, addLayer, _getLayer,
 * setLayerRule, _getLayerRule, getLayerRule, layers, and the rule filter of
 * _broadphase).
 */
module Layers {
  import opened Base

  /** Number of layer slots; slot 0 always holds "default". */
  const LayerCount: nat := 32
  /** Number of 32-bit rule words. */
  const WordCount: nat := 64
  /** Every rule word starts with all bits set: every pair collides ALWAYS. */
  const AllOnes: bv32 := 0xFFFF_FFFF

  datatype Rule = Always | EqualGroup | UnequalGroup | Never

  /**
   * addLayer with all 31 user slots taken throws; `left` is the table as
   * the throw leaves it (the world keeps whatever was done before it).
   */
  datatype LayerError = NoMoreLayers(left: Table)

  /** The 2-bit code each rule is stored as. */
  function Bits(r: Rule): (b: bv32)
    ensures b <= 3
  {
    match r
    case Always => 3
    case EqualGroup => 2
    case UnequalGroup => 1
    case Never => 0
  }

  /** getLayerRule's switch: a code 0..3 names a rule, anything else falls through (undefined). */
  function Decode(v: bv32): (r: Option<Rule>)
    ensures r.Some? <==> v <= 3
    ensures r.Some? ==> Bits(r.value) == v
  {
    if v == 3 then Some(Always)
    else if v == 2 then Some(EqualGroup)
    else if v == 1 then Some(UnequalGroup)
    else if v == 0 then Some(Never)
    else None
  }

  /** The rule a 2-bit code names. */
  function RuleOf(v: bv32): (r: Rule)
    requires v <= 3
    ensures Bits(r) == v
  {
    Decode(v).value
  }

  // ---------------------------------------------------------------------
  // Bit fields of one word
  // ---------------------------------------------------------------------

  /** `3 << shift` */
  function Mask(shift: bv32): bv32
    requires shift <= 30
  {
    3 << shift
  }

  /** `(word & ~(3 << shift)) | (bits << shift)`, the update setLayerRule performs. */
  function Store(w: bv32, shift: bv32, bits: bv32): bv32
    requires shift <= 30
  {
    (w & !Mask(shift)) | (bits << shift)
  }

  /** JavaScript's sign-propagating `>>` on an int32 bit pattern. */
  function Asr(m: bv32, shift: bv32): bv32
    requires shift <= 30
  {
    if m & 0x8000_0000 == 0 then m >> shift else !((!m) >> shift)
  }

  /** `(word & (3 << shift)) >> shift` as the source reads it; the result is an int32 bit pattern. */
  function FieldAsWritten(w: bv32, shift: bv32): bv32
    requires shift <= 30
  {
    Asr(w & Mask(shift), shift)
  }

  /** The same read with an unsigned shift (`>>>`), as evidently intended. */
  function Field(w: bv32, shift: bv32): (v: bv32)
    requires shift <= 30
    ensures v <= 3
  {
    (w & Mask(shift)) >> shift
  }

  /** A stored code reads back unchanged. */
  lemma StoreReadsBack(w: bv32, shift: bv32, bits: bv32)
    requires shift <= 30 && bits <= 3
    ensures Field(Store(w, shift, bits), shift) == bits
  {
  }

  /** Storing one field leaves every other even-aligned field's bits alone. */
  lemma StoreFrame(w: bv32, shift: bv32, other: bv32, bits: bv32)
    requires shift <= 30 && other <= 30 && bits <= 3
    requires shift % 2 == 0 && other % 2 == 0 && shift != other
    ensures Store(w, shift, bits) & Mask(other) == w & Mask(other)
  {
  }

  /** Storing ALWAYS into an all-ones word leaves it all ones. */
  lemma StoreAlwaysInAllOnes(shift: bv32)
    requires shift <= 30
    ensures Store(AllOnes, shift, 3) == AllOnes
  {
  }

  /** Below bit 30 the sign bit is never part of the field, so both reads agree. */
  lemma FieldsAgree(w: bv32, shift: bv32)
    requires shift <= 28 && shift % 2 == 0
    ensures FieldAsWritten(w, shift) == Field(w, shift)
  {
  }

  /**
   * At bit 30 the arithmetic shift sign-extends: ALWAYS (3) reads as -1 and
   * EQUAL_GROUP (2) as -2, neither of which getLayerRule or the broadphase
   * recognises.
   */
  lemma FieldAsWrittenAtBit30(w: bv32)
    ensures Field(w, 30) == 3 ==> FieldAsWritten(w, 30) == 0xFFFF_FFFF
    ensures Field(w, 30) == 2 ==> FieldAsWritten(w, 30) == 0xFFFF_FFFE
    ensures Field(w, 30) <= 1 ==> FieldAsWritten(w, 30) == Field(w, 30)
    ensures Decode(FieldAsWritten(w, 30)).None? <==> Field(w, 30) >= 2
  {
  }

  // ---------------------------------------------------------------------
  // Where each ordered pair lives
  // ---------------------------------------------------------------------

  /**
   * The bit a field starts at: 2*id2 below 16, otherwise 2*id2-16 taken mod
   * 32 the way JavaScript reduces shift counts, so ids 24..31 land on bits
   * 0..14.
   */
  function ShiftOf(id2: nat): (n: nat)
    requires id2 < LayerCount
    ensures n <= 30 && n % 2 == 0
    ensures n == 30 <==> id2 == 15 || id2 == 23
  {
    if id2 < 16 then 2 * id2 else (2 * id2 - 16) % 32
  }

  /** A shift count as a 32-bit word, counted up one bit value at a time. */
  function ShiftBits(n: nat): (b: bv32)
    requires n < 32
    ensures b as int == n
  {
    if n == 0 then 0 else ShiftBits(n - 1) + 1
  }

  /** Where the field of an ordered pair lives: word index and start bit. */
  datatype Slot = Slot(word: nat, shift: bv32)

  /** Second ids below 16 use word id1, the others word id1+32. */
  function SlotOf(id1: nat, id2: nat): (s: Slot)
    requires id1 < LayerCount && id2 < LayerCount
    ensures s.word < WordCount && s.shift as int == ShiftOf(id2)
    ensures s.shift <= 30 && s.shift % 2 == 0
    ensures s.shift == 30 <==> id2 == 15 || id2 == 23
  {
    Slot(if id2 < 16 then id1 else id1 + 32, ShiftBits(ShiftOf(id2)))
  }

  /** Distinct ordered pairs never share a field. */
  lemma SlotOfInjective(a1: nat, a2: nat, b1: nat, b2: nat)
    requires a1 < LayerCount && a2 < LayerCount && b1 < LayerCount && b2 < LayerCount
    requires SlotOf(a1, a2) == SlotOf(b1, b2)
    ensures a1 == b1 && a2 == b2
  {
    assert ShiftOf(a2) == ShiftOf(b2);
    if a2 >= 16 && b2 >= 16 {
      HighShift(a2);
      HighShift(b2);
    }
  }

  /** For second ids 16..31 the reduced shift count, in closed form. */
  lemma HighShift(id2: nat)
    requires 16 <= id2 < LayerCount
    ensures ShiftOf(id2) == if id2 < 24 then 2 * id2 - 16 else 2 * id2 - 48
  {
  }

  /** The bits of the (id1, id2) field, still in place: `word & (3 << shift)`. */
  function Masked(words: seq<bv32>, id1: nat, id2: nat): bv32
    requires |words| == WordCount && id1 < LayerCount && id2 < LayerCount
  {
    words[SlotOf(id1, id2).word] & Mask(SlotOf(id1, id2).shift)
  }

  /** The rule code stored for the ordered pair (id1, id2). */
  function FieldOf(words: seq<bv32>, id1: nat, id2: nat): (v: bv32)
    requires |words| == WordCount && id1 < LayerCount && id2 < LayerCount
    ensures v <= 3
  {
    Field(words[SlotOf(id1, id2).word], SlotOf(id1, id2).shift)
  }

  /** `_getLayerRule(id1, id2)` as written (the int32 bit pattern of its result). */
  function FieldOfAsWritten(words: seq<bv32>, id1: nat, id2: nat): bv32
    requires |words| == WordCount && id1 < LayerCount && id2 < LayerCount
  {
    FieldAsWritten(words[SlotOf(id1, id2).word], SlotOf(id1, id2).shift)
  }

  /** Both reads agree unless the second id puts the field at bit 30. */
  lemma FieldOfAgrees(words: seq<bv32>, id1: nat, id2: nat)
    requires |words| == WordCount && id1 < LayerCount && id2 < LayerCount
    requires id2 != 15 && id2 != 23
    ensures FieldOfAsWritten(words, id1, id2) == FieldOf(words, id1, id2)
  {
    FieldsAgree(words[SlotOf(id1, id2).word], SlotOf(id1, id2).shift);
  }

  // ---------------------------------------------------------------------
  // The table
  // ---------------------------------------------------------------------

  /**
   * `_layerIds` (name -> id), `_layerNames` (id -> name, null when free) and
   * `_layers` (the 64 rule words).
   */
  datatype Table = Table(ids: map<string, nat>, names: seq<Option<string>>, words: seq<bv32>)

  /**
   * Slot 0 is "default"; every registered name points at a slot holding that
   * name; every filled slot's name is registered; filled slots form a prefix.
   */
  predicate Valid(t: Table) {
    && |t.names| == LayerCount
    && |t.words| == WordCount
    && t.names[0] == Some("default")
    && (forall k :: k in t.ids ==> t.ids[k] < LayerCount && t.names[t.ids[k]] == Some(k))
    && (forall i :: 0 <= i < LayerCount && t.names[i].Some? ==> t.names[i].value in t.ids)
    && (forall i, j :: 0 <= i <= j < LayerCount && t.names[j].Some? ==> t.names[i].Some?)
  }

  /** Two registered names never share an id. */
  lemma IdsInjective(t: Table, a: string, b: string)
    requires Valid(t) && a in t.ids && b in t.ids && a != b
    ensures t.ids[a] != t.ids[b]
  {
  }

  /** The constructor: only "default" registered, every word all ones. */
  function NewTable(): (t: Table)
    ensures Valid(t)
    ensures t.ids == map["default" := 0]
    ensures forall i :: 1 <= i < LayerCount ==> t.names[i].None?
    ensures forall id1, id2 :: 0 <= id1 < LayerCount && 0 <= id2 < LayerCount ==> FieldOf(t.words, id1, id2) == 3
  {
    var t := Table(map["default" := 0], [Some("default")] + seq(31, i => None), seq(64, i => AllOnes));
    assert forall id1, id2 :: 0 <= id1 < LayerCount && 0 <= id2 < LayerCount ==> FieldOf(t.words, id1, id2) == 3 by {
      forall id1, id2 | 0 <= id1 < LayerCount && 0 <= id2 < LayerCount
        ensures FieldOf(t.words, id1, id2) == 3
      {
        var s := SlotOf(id1, id2);
        StoreReadsBack(AllOnes, s.shift, 3);
        StoreAlwaysInAllOnes(s.shift);
      }
    }
    t
  }

  /** The lowest free slot at or after i (addLayer's scan), or 32 if none. */
  function FirstFree(names: seq<Option<string>>, i: nat): (r: nat)
    requires |names| == LayerCount && 1 <= i <= LayerCount
    ensures i <= r <= LayerCount
    ensures forall k :: i <= k < r ==> names[k].Some?
    ensures r < LayerCount ==> names[r].None?
    decreases LayerCount - i
  {
    if i < LayerCount && names[i].Some? then FirstFree(names, i + 1) else i
  }

  /** Every user slot 1..31 is taken. */
  predicate Full(t: Table)
    requires |t.names| == LayerCount
  {
    forall k :: 1 <= k < LayerCount ==> t.names[k].Some?
  }

  /**
   * addLayer: puts the name in the lowest free slot 1..31 and records it in
   * both tables; it does not check whether the name is already registered.
   * With every slot taken it throws.
   */
  function AddLayer(t: Table, name: string): (r: Result<Table, LayerError>)
    requires Valid(t)
    ensures r.Err? <==> Full(t)
    ensures r.Err? ==> r.error.left == t
    ensures r.Ok? ==>
      && Valid(r.value)
      && name in r.value.ids
      && var s := r.value.ids[name];
      && s == FirstFree(t.names, 1)
      && 1 <= s < LayerCount
      && t.names[s].None?
      && (forall k :: 1 <= k < s ==> t.names[k].Some?)
      && r.value.names == t.names[s := Some(name)]
      && r.value.ids == t.ids[name := s]
      && r.value.words == t.words
  {
    var i := FirstFree(t.names, 1);
    if i == LayerCount then
      Err(NoMoreLayers(t))
    else
      var t' := Table(t.ids[name := i], t.names[i := Some(name)], t.words);
      assert Valid(t') by {
        forall k | k in t'.ids ensures t'.ids[k] < LayerCount && t'.names[t'.ids[k]] == Some(k) {
          if k != name {
            assert t.ids[k] != i by { assert t.names[t.ids[k]].Some?; }
          }
        }
      }
      Ok(t')
  }

  /** After an addLayer the table is full exactly when the name took the last slot. */
  lemma FullAfterAdd(t: Table, name: string)
    requires Valid(t)
    ensures AddLayer(t, name).Ok? ==> (Full(AddLayer(t, name).value) <==> FirstFree(t.names, 1) == LayerCount - 1)
  {
    if AddLayer(t, name).Ok? {
      var s := FirstFree(t.names, 1);
      if s < LayerCount - 1 {
        assert t.names[s + 1].None?;
        assert AddLayer(t, name).value.names[s + 1].None?;
      }
    }
  }

  /** `layers`: every registered name except the empty string (filtered out as falsy). */
  function LayerNames(t: Table): (r: set<string>)
    ensures forall n :: n in r <==> n in t.ids && n != ""
  {
    set n | n in t.ids && n != ""
  }

  /** A fresh world lists only "default"; each addLayer lists one more name. */
  lemma LayerNamesGrow(t: Table, name: string)
    requires Valid(t)
    ensures LayerNames(NewTable()) == {"default"}
    ensures AddLayer(t, name).Ok? ==>
      LayerNames(AddLayer(t, name).value) == LayerNames(t) + (if name == "" then {} else {name})
  {
    assert "default" in LayerNames(NewTable());
  }

  /**
   * t' only adds to t: a slot free in t' was free in t, and a name new in
   * t' sits in a slot that was free in t.
   */
  predicate Extends(t: Table, t': Table)
    requires Valid(t) && Valid(t')
  {
    && (forall i :: 0 <= i < LayerCount && t'.names[i].None? ==> t.names[i].None?)
    && (forall k :: k in t'.ids && k !in t.ids ==> t.names[t'.ids[k]].None?)
  }

  /** Registers a name unless it already is (the checks at the head of setLayerRule). */
  function Ensure(t: Table, name: string): (r: Result<Table, LayerError>)
    requires Valid(t)
    ensures r.Err? <==> name !in t.ids && Full(t)
    ensures r.Err? ==> r.error.left == t
    ensures r.Ok? ==> Valid(r.value) && name in r.value.ids && r.value.words == t.words
    ensures r.Ok? ==> forall k :: k in t.ids ==> k in r.value.ids && r.value.ids[k] == t.ids[k]
    ensures r.Ok? && name in t.ids ==> r.value == t
    ensures r.Ok? ==> Extends(t, r.value)
  {
    if name in t.ids then Ok(t) else AddLayer(t, name)
  }

  /**
   * `_getLayer`: the id of a name, registering it first when unknown. The
   * source's fallback `return 0` cannot be reached: addLayer either
   * registers the name or throws.
   */
  function GetLayer(t: Table, name: string): (r: Result<(Table, nat), LayerError>)
    requires Valid(t)
    ensures r.Err? <==> name !in t.ids && Full(t)
    ensures r.Ok? ==> Valid(r.value.0) && name in r.value.0.ids && r.value.1 == r.value.0.ids[name]
    ensures r.Ok? && name in t.ids ==> r.value.0 == t
  {
    var t' :- Ensure(t, name);
    Ok((t', t'.ids[name]))
  }

  /** Writes the field of (id1, id2): one of the two blocks of setLayerRule. */
  function WriteField(words: seq<bv32>, id1: nat, id2: nat, rule: Rule): (r: seq<bv32>)
    requires |words| == WordCount && id1 < LayerCount && id2 < LayerCount
    ensures |r| == WordCount
    ensures FieldOf(r, id1, id2) == Bits(rule)
  {
    var s := SlotOf(id1, id2);
    StoreReadsBack(words[s.word], s.shift, Bits(rule));
    words[s.word := Store(words[s.word], s.shift, Bits(rule))]
  }

  /** Writing the (id1, id2) field leaves every other ordered pair's field alone. */
  lemma WriteFieldFrame(words: seq<bv32>, id1: nat, id2: nat, rule: Rule, p: nat, q: nat)
    requires |words| == WordCount && id1 < LayerCount && id2 < LayerCount
    requires p < LayerCount && q < LayerCount && (p != id1 || q != id2)
    ensures Masked(WriteField(words, id1, id2, rule), p, q) == Masked(words, p, q)
  {
    var s, s' := SlotOf(id1, id2), SlotOf(p, q);
    if s'.word == s.word {
      if s'.shift == s.shift {
        SlotOfInjective(p, q, id1, id2);
      }
      StoreFrame(words[s.word], s.shift, s'.shift, Bits(rule));
    }
  }

  /** The two writes of setLayerRule: (id1, id2), then (id2, id1) when the ids differ. */
  function WriteRule(words: seq<bv32>, id1: nat, id2: nat, rule: Rule): (r: seq<bv32>)
    requires |words| == WordCount && id1 < LayerCount && id2 < LayerCount
    ensures |r| == WordCount
    ensures FieldOf(r, id1, id2) == Bits(rule) && FieldOf(r, id2, id1) == Bits(rule)
  {
    var w1 := WriteField(words, id1, id2, rule);
    if id1 == id2 then w1
    else
      WriteFieldFrame(w1, id2, id1, rule, id1, id2);
      WriteField(w1, id2, id1, rule)
  }

  /**
   * setLayerRule: registers unknown names, then writes the rule for both
   * orders of the pair.
   */
  function SetLayerRule(t: Table, layer1: string, layer2: string, rule: Rule): (r: Result<Table, LayerError>)
    requires Valid(t)
    ensures r.Err? <==>
      && (layer1 !in t.ids || layer2 !in t.ids)
      && (Full(t) || (layer1 !in t.ids && layer2 !in t.ids && layer1 != layer2 && FirstFree(t.names, 1) == LayerCount - 1))
    ensures r.Ok? ==> Valid(r.value) && layer1 in r.value.ids && layer2 in r.value.ids
    ensures r.Ok? ==> forall k :: k in t.ids ==> k in r.value.ids && r.value.ids[k] == t.ids[k]
    ensures r.Ok? ==>
      var id1, id2 := r.value.ids[layer1], r.value.ids[layer2];
      FieldOf(r.value.words, id1, id2) == Bits(rule) && FieldOf(r.value.words, id2, id1) == Bits(rule)
    ensures r.Ok? ==> Extends(t, r.value)
    ensures r.Err? ==> Valid(r.error.left) && r.error.left.words == t.words
    ensures r.Err? ==> forall k :: k in t.ids ==> k in r.error.left.ids && r.error.left.ids[k] == t.ids[k]
    ensures r.Err? ==> (layer1 in r.error.left.ids <==> layer1 in t.ids || !Full(t))
    ensures r.Err? && layer1 !in t.ids && !Full(t) ==> r.error.left.ids[layer1] == LayerCount - 1
  {
    FullAfterAdd(t, layer1);
    var t1 :- Ensure(t, layer1);
    var t2 :- Ensure(t1, layer2);
    assert Extends(t, t2) by {
      forall k | k in t2.ids && k !in t.ids ensures t.names[t2.ids[k]].None? {
        if k in t1.ids {
          assert t1.ids[k] == t2.ids[k];
        }
      }
    }
    Ok(t2.(words := WriteRule(t2.words, t2.ids[layer1], t2.ids[layer2], rule)))
  }

  /**
   * The `rule` argument of setLayerRule as passed: one of the four rule
   * values, or any other value, which matches no `case` of its switches.
   */
  datatype RuleArg = Named(rule: Rule) | Other

  /**
   * The code the `add` of setLayerRule contributes. An unmatched switch
   * leaves `add` undefined, and `x | undefined` is `x | 0`, so the cleared
   * field stays 0.
   */
  function AddCode(a: RuleArg): (c: bv32)
    ensures c <= 3
    ensures a.Named? ==> c == Bits(a.rule)
  {
    match a
    case Named(r) => Bits(r)
    case Other => 0
  }

  /** setLayerRule on the argument as passed: both fields of the pair receive its code. */
  function SetLayerRuleArg(t: Table, layer1: string, layer2: string, a: RuleArg): (r: Result<Table, LayerError>)
    requires Valid(t)
    ensures r.Err? <==> SetLayerRule(t, layer1, layer2, Never).Err?
    ensures r.Ok? ==> Valid(r.value) && layer1 in r.value.ids && layer2 in r.value.ids
    ensures r.Ok? ==>
      var id1, id2 := r.value.ids[layer1], r.value.ids[layer2];
      FieldOf(r.value.words, id1, id2) == AddCode(a) && FieldOf(r.value.words, id2, id1) == AddCode(a)
    ensures a.Named? ==> r == SetLayerRule(t, layer1, layer2, a.rule)
  {
    match a
    case Named(rule) =>
      FailsAlike(t, layer1, layer2, rule);
      SetLayerRule(t, layer1, layer2, rule)
    case Other => SetLayerRule(t, layer1, layer2, Never)
  }

  /** Whether setLayerRule throws does not depend on the rule. */
  lemma FailsAlike(t: Table, layer1: string, layer2: string, rule: Rule)
    requires Valid(t)
    ensures SetLayerRule(t, layer1, layer2, rule).Err? <==> SetLayerRule(t, layer1, layer2, Never).Err?
  {
  }

  /** An argument that is none of the four rules stores NEVER, so the pair reads NEVER both ways. */
  lemma OtherRuleReadsNever(t: Table, layer1: string, layer2: string)
    requires Valid(t) && SetLayerRuleArg(t, layer1, layer2, Other).Ok?
    ensures SetLayerRuleArg(t, layer1, layer2, Other) == SetLayerRule(t, layer1, layer2, Never)
    ensures GetLayerRule(SetLayerRuleArg(t, layer1, layer2, Other).value, layer1, layer2) == Never
    ensures GetLayerRule(SetLayerRuleArg(t, layer1, layer2, Other).value, layer2, layer1) == Never
  {
    SetThenGet(t, layer1, layer2, Never);
  }

  /** Writing the rule for (id1, id2) and (id2, id1) leaves every other ordered pair alone. */
  lemma WriteRuleFrame(words: seq<bv32>, id1: nat, id2: nat, rule: Rule, p: nat, q: nat)
    requires |words| == WordCount && id1 < LayerCount && id2 < LayerCount
    requires p < LayerCount && q < LayerCount
    requires (p != id1 || q != id2) && (p != id2 || q != id1)
    ensures FieldOf(WriteRule(words, id1, id2, rule), p, q) == FieldOf(words, p, q)
  {
    var w1 := WriteField(words, id1, id2, rule);
    WriteFieldFrame(words, id1, id2, rule, p, q);
    if id1 != id2 {
      WriteFieldFrame(w1, id2, id1, rule, p, q);
    }
  }

  // ---------------------------------------------------------------------
  // Reading rules back
  // ---------------------------------------------------------------------

  /**
   * The code getLayerRule switches on, read with an unsigned shift. An
   * unregistered first name indexes no word and reads NEVER; an
   * unregistered second name gives a NaN shift, which JavaScript treats as
   * 0, so word id1+32 is read at bits 0-1.
   */
  function RuleCode(t: Table, layer1: string, layer2: string): (v: bv32)
    requires Valid(t)
    ensures v <= 3
  {
    if layer1 !in t.ids then 0
    else if layer2 !in t.ids then Field(t.words[t.ids[layer1] + 32], 0)
    else FieldOf(t.words, t.ids[layer1], t.ids[layer2])
  }

  /** The same code as getLayerRule computes it, with the sign-propagating `>>`. */
  function RuleCodeAsWritten(t: Table, layer1: string, layer2: string): bv32
    requires Valid(t)
  {
    if layer1 !in t.ids then 0
    else if layer2 !in t.ids then FieldAsWritten(t.words[t.ids[layer1] + 32], 0)
    else FieldOfAsWritten(t.words, t.ids[layer1], t.ids[layer2])
  }

  /** getLayerRule with the unsigned read: always one of the four rules. */
  function GetLayerRule(t: Table, layer1: string, layer2: string): (r: Rule)
    requires Valid(t)
    ensures layer1 !in t.ids ==> r == Never
    ensures layer1 in t.ids && layer2 in t.ids ==> Bits(r) == FieldOf(t.words, t.ids[layer1], t.ids[layer2])
    ensures layer1 in t.ids && layer2 !in t.ids ==> Bits(r) == FieldOf(t.words, t.ids[layer1], 24)
  {
    RuleOf(RuleCode(t, layer1, layer2))
  }

  /**
   * getLayerRule as written: None stands for the `undefined` it returns when
   * the switch matches no case. It differs from GetLayerRule only when the
   * second layer's id is 15 or 23.
   */
  function GetLayerRuleAsWritten(t: Table, layer1: string, layer2: string): (r: Option<Rule>)
    requires Valid(t)
    ensures !(layer2 in t.ids && t.ids[layer2] in {15, 23}) ==> r == Some(GetLayerRule(t, layer1, layer2))
  {
    if layer1 in t.ids && layer2 !in t.ids then
      FieldsAgree(t.words[t.ids[layer1] + 32], 0);
      Decode(RuleCodeAsWritten(t, layer1, layer2))
    else if layer1 in t.ids && t.ids[layer2] != 15 && t.ids[layer2] != 23 then
      FieldOfAgrees(t.words, t.ids[layer1], t.ids[layer2]);
      Decode(RuleCodeAsWritten(t, layer1, layer2))
    else
      Decode(RuleCodeAsWritten(t, layer1, layer2))
  }

  /**
   * A registered second layer with id 15 or 23 puts the field at bit 30:
   * getLayerRule then returns undefined exactly when the stored rule is
   * ALWAYS or EQUAL_GROUP.
   */
  lemma GetLayerRuleAsWrittenAtBit30(t: Table, layer1: string, layer2: string)
    requires Valid(t) && layer1 in t.ids && layer2 in t.ids && t.ids[layer2] in {15, 23}
    ensures GetLayerRuleAsWritten(t, layer1, layer2).None? <==>
      GetLayerRule(t, layer1, layer2) in {Always, EqualGroup}
    ensures GetLayerRuleAsWritten(t, layer1, layer2).Some? ==>
      GetLayerRuleAsWritten(t, layer1, layer2).value == GetLayerRule(t, layer1, layer2)
  {
    var s := SlotOf(t.ids[layer1], t.ids[layer2]);
    FieldAsWrittenAtBit30(t.words[s.word]);
  }

  /** What setLayerRule stores, getLayerRule returns, for both orders of the pair. */
  lemma SetThenGet(t: Table, layer1: string, layer2: string, rule: Rule)
    requires Valid(t) && SetLayerRule(t, layer1, layer2, rule).Ok?
    ensures GetLayerRule(SetLayerRule(t, layer1, layer2, rule).value, layer1, layer2) == rule
    ensures GetLayerRule(SetLayerRule(t, layer1, layer2, rule).value, layer2, layer1) == rule
  {
  }

  /** setLayerRule changes no ordered pair of ids other than the two it writes. */
  lemma SetLayerRuleFrame(t: Table, layer1: string, layer2: string, rule: Rule, p: nat, q: nat)
    requires Valid(t) && SetLayerRule(t, layer1, layer2, rule).Ok?
    requires p < LayerCount && q < LayerCount
    requires
      var t' := SetLayerRule(t, layer1, layer2, rule).value;
      var id1, id2 := t'.ids[layer1], t'.ids[layer2];
      (p != id1 || q != id2) && (p != id2 || q != id1)
    ensures FieldOf(SetLayerRule(t, layer1, layer2, rule).value.words, p, q) == FieldOf(t.words, p, q)
  {
    FullAfterAdd(t, layer1);
    var t1 := Ensure(t, layer1).value;
    var t2 := Ensure(t1, layer2).value;
    WriteRuleFrame(t2.words, t2.ids[layer1], t2.ids[layer2], rule, p, q);
  }

  // ---------------------------------------------------------------------
  // Sequences of layer calls
  // ---------------------------------------------------------------------

  /** A call on the world's layer API. */
  datatype LayerCall = AddCall(name: string) | SetRuleCall(layer1: string, layer2: string, rule: Rule)

  /** Does this call set the rule of the unordered pair {a, b}? */
  predicate Mentions(c: LayerCall, a: string, b: string) {
    c.SetRuleCall? && ((c.layer1 == a && c.layer2 == b) || (c.layer1 == b && c.layer2 == a))
  }

  function Step(t: Table, c: LayerCall): (r: Result<Table, LayerError>)
    requires Valid(t)
    ensures r.Ok? ==> Valid(r.value)
  {
    match c
    case AddCall(name) => AddLayer(t, name)
    case SetRuleCall(l1, l2, rule) => SetLayerRule(t, l1, l2, rule)
  }

  /** Performs the calls in order; the first throw stops the sequence. */
  function Run(t: Table, calls: seq<LayerCall>): (r: Result<Table, LayerError>)
    requires Valid(t)
    ensures r.Ok? ==> Valid(r.value)
    decreases |calls|
  {
    if |calls| == 0 then Ok(t)
    else
      var t' :- Step(t, calls[0]);
      Run(t', calls[1..])
  }

  /** Every field involving a free slot still holds ALWAYS, as the constructor left it. */
  predicate FreeSlotsAlways(t: Table)
    requires Valid(t)
  {
    forall p, q :: 0 <= p < LayerCount && 0 <= q < LayerCount && (t.names[p].None? || t.names[q].None?) ==>
      FieldOf(t.words, p, q) == 3
  }

  /** Names a and b, if both registered, collide ALWAYS. */
  predicate PairAlways(t: Table, a: string, b: string)
    requires Valid(t)
  {
    a in t.ids && b in t.ids ==> GetLayerRule(t, a, b) == Always
  }

  /** addLayer writes no rule word, and a newly added name takes a free slot. */
  lemma AddLayerFrame(t: Table, name: string, a: string, b: string)
    requires Valid(t) && FreeSlotsAlways(t) && PairAlways(t, a, b) && AddLayer(t, name).Ok?
    ensures FreeSlotsAlways(AddLayer(t, name).value)
    ensures PairAlways(AddLayer(t, name).value, a, b)
  {
    var t' := AddLayer(t, name).value;
    if a in t'.ids && b in t'.ids && (a == name || b == name || a !in t.ids || b !in t.ids) {
      assert t.names[t'.ids[a]].None? || t.names[t'.ids[b]].None?;
    }
  }

  /** The pair (a, b) keeps its code through a setLayerRule that names another pair. */
  lemma PairFrame(t: Table, t': Table, c: LayerCall, a: string, b: string)
    requires c.SetRuleCall? && !Mentions(c, a, b)
    requires Valid(t) && FreeSlotsAlways(t) && PairAlways(t, a, b) && SetLayerRule(t, c.layer1, c.layer2, c.rule).Ok?
    requires t' == SetLayerRule(t, c.layer1, c.layer2, c.rule).value
    requires a in t'.ids && b in t'.ids
    ensures GetLayerRule(t', a, b) == Always
  {
    var id1, id2 := t'.ids[c.layer1], t'.ids[c.layer2];
    var pa, pb := t'.ids[a], t'.ids[b];
    assert (pa != id1 || pb != id2) && (pa != id2 || pb != id1);
    SetLayerRuleFrame(t, c.layer1, c.layer2, c.rule, pa, pb);
    if !(a in t.ids && b in t.ids) {
      assert t.names[pa].None? || t.names[pb].None?;
    }
  }

  /** setLayerRule on another pair keeps free slots and the pair (a, b) at ALWAYS. */
  lemma SetLayerRulePreserves(t: Table, c: LayerCall, a: string, b: string)
    requires c.SetRuleCall? && !Mentions(c, a, b)
    requires Valid(t) && FreeSlotsAlways(t) && PairAlways(t, a, b) && SetLayerRule(t, c.layer1, c.layer2, c.rule).Ok?
    ensures FreeSlotsAlways(SetLayerRule(t, c.layer1, c.layer2, c.rule).value)
    ensures PairAlways(SetLayerRule(t, c.layer1, c.layer2, c.rule).value, a, b)
  {
    var t' := SetLayerRule(t, c.layer1, c.layer2, c.rule).value;
    assert Extends(t, t');
    forall p, q | 0 <= p < LayerCount && 0 <= q < LayerCount && (t'.names[p].None? || t'.names[q].None?)
      ensures FieldOf(t'.words, p, q) == 3
    {
      SetLayerRuleFrame(t, c.layer1, c.layer2, c.rule, p, q);
    }
    if a in t'.ids && b in t'.ids {
      PairFrame(t, t', c, a, b);
    }
  }

  /**
   * The rule of a pair of names that no setLayerRule call names together
   * stays ALWAYS through any sequence of calls.
   */
  lemma {:induction false} RunPreserves(t: Table, calls: seq<LayerCall>, a: string, b: string)
    requires Valid(t) && FreeSlotsAlways(t) && PairAlways(t, a, b) && Run(t, calls).Ok?
    requires forall i :: 0 <= i < |calls| ==> !Mentions(calls[i], a, b)
    ensures FreeSlotsAlways(Run(t, calls).value) && PairAlways(Run(t, calls).value, a, b)
    decreases |calls|
  {
    if |calls| > 0 {
      var t' := Step(t, calls[0]).value;
      if calls[0].AddCall? {
        AddLayerFrame(t, calls[0].name, a, b);
      } else {
        assert !Mentions(calls[0], a, b);
        SetLayerRulePreserves(t, calls[0], a, b);
      }
      assert Run(t, calls) == Run(t', calls[1..]);
      assert forall i :: 0 <= i < |calls[1..]| ==> !Mentions(calls[1..][i], a, b) by {
        forall i | 0 <= i < |calls[1..]| ensures !Mentions(calls[1..][i], a, b) {
          assert calls[1..][i] == calls[i + 1];
        }
      }
      RunPreserves(t', calls[1..], a, b);
    }
  }

  /**
   * From a fresh world, every pair of registered names that no
   * setLayerRule call names together collides ALWAYS; in particular every
   * layer collides with "default" unless told otherwise.
   */
  lemma UnmentionedPairsAlways(calls: seq<LayerCall>, a: string, b: string)
    requires Run(NewTable(), calls).Ok?
    requires forall i :: 0 <= i < |calls| ==> !Mentions(calls[i], a, b)
    requires a in Run(NewTable(), calls).value.ids && b in Run(NewTable(), calls).value.ids
    ensures GetLayerRule(Run(NewTable(), calls).value, a, b) == Always
  {
    RunPreserves(NewTable(), calls, a, b);
  }

  // ---------------------------------------------------------------------
  // The broadphase filter
  // ---------------------------------------------------------------------

  /** Whether a rule lets two bodies with the given groups collide. */
  predicate Admits(rule: Rule, group1: int, group2: int) {
    match rule
    case Always => true
    case EqualGroup => group1 == group2
    case UnequalGroup => group1 != group2
    case Never => false
  }

  /**
   * The switch of the first filter of _broadphase on the code read for a
   * pair: a code it does not list yields undefined, which drops the pair.
   */
  function KeepPairSwitch(code: bv32, group1: int, group2: int): (keep: bool)
    ensures code <= 3 ==> (keep <==> Admits(RuleOf(code), group1, group2))
    ensures code > 3 ==> !keep
  {
    if code == 3 then true
    else if code == 2 then group1 == group2
    else if code == 1 then group1 != group2
    else false
  }

  /** The filter on a pair of bodies with layer ids id1 and id2, reading the field unsigned. */
  function KeepPair(words: seq<bv32>, id1: nat, id2: nat, group1: int, group2: int): (keep: bool)
    requires |words| == WordCount && id1 < LayerCount && id2 < LayerCount
    ensures keep <==> Admits(RuleOf(FieldOf(words, id1, id2)), group1, group2)
  {
    KeepPairSwitch(FieldOf(words, id1, id2), group1, group2)
  }

  /** The filter as written, reading the field with the arithmetic shift. */
  function KeepPairAsWritten(words: seq<bv32>, id1: nat, id2: nat, group1: int, group2: int): (keep: bool)
    requires |words| == WordCount && id1 < LayerCount && id2 < LayerCount
    ensures id2 != 15 && id2 != 23 ==> keep == KeepPair(words, id1, id2, group1, group2)
  {
    if id2 != 15 && id2 != 23 then
      FieldOfAgrees(words, id1, id2);
      KeepPairSwitch(FieldOfAsWritten(words, id1, id2), group1, group2)
    else
      KeepPairSwitch(FieldOfAsWritten(words, id1, id2), group1, group2)
  }

  /**
   * In a fresh world a body on layer 0 and one on layer 15 should always
   * collide, but the as-written filter drops the pair: the field reads -1.
   */
  lemma FreshWorldDropsLayer15(group1: int, group2: int)
    ensures KeepPair(NewTable().words, 0, 15, group1, group2)
    ensures FieldOfAsWritten(NewTable().words, 0, 15) == 0xFFFF_FFFF
    ensures !KeepPairAsWritten(NewTable().words, 0, 15, group1, group2)
  {
    var w := NewTable().words;
    FieldAsWrittenAtBit30(w[0]);
  }
}
