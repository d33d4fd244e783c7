/** Fit parameters (fit-params.c): the identity of a fittable scalar, the
    counted arrays that hold fit parameters and seeds, the layer-renumbering
    fix-ups applied when a layer is inserted into or deleted from the stack,
    and the textual names of parameters. */
module FitParams {
  import opened Common

  /** enum params_id.  fit-params.h is not part of this model; the codes are
      those implied by fit_param_write: thickness = 1, n = 2, firstmul = 3,
      invalid = 4, and the first layer-independent code is that of firstmul. */
  datatype ParamId = Thickness | LayerN | FirstMul | Invalid
  {
    function Code(): int
    {
      match this
      case Thickness => 1
      case LayerN => 2
      case FirstMul => 3
      case Invalid => 4
    }

    /** `id < PID_LAYER_INDIPENDENT`: the parameter belongs to one layer. */
    predicate LayerScoped() { Code() < LayerIndependentCode }
  }

  const LayerIndependentCode := 3
  /** MODEL_NONE: the first code past the four dispersion models that can be named. */
  const ModelNone := 5

  /** fit_param_t */
  datatype FitParam = FitParam(id: ParamId, layerNb: int, modelId: int, paramNb: int)

  /** set_model_param */
  function ModelParam(lyr: int, modelId: int, paramNb: int): (fp: FitParam)
    ensures fp.id == LayerN && fp.id.LayerScoped()
    ensures fp.layerNb == lyr && fp.modelId == modelId && fp.paramNb == paramNb
  {
    FitParam(LayerN, lyr, modelId, paramNb)
  }

  /** set_thick_param */
  function ThickParam(lyr: int): (fp: FitParam)
    ensures fp.id == Thickness && fp.id.LayerScoped()
    ensures fp.layerNb == lyr && fp.modelId == 0 && fp.paramNb == 0
  {
    FitParam(Thickness, lyr, 0, 0)
  }

  /** fit_param_compare: 0 when the two parameters denote the same scalar.
      The layer is compared for every kind, the model and the parameter
      number only for dispersion parameters. */
  function Compare(a: FitParam, b: FitParam): (r: int)
    ensures r == 0 || r == 1
    ensures r == 0 <==>
      a.id == b.id && a.layerNb == b.layerNb &&
      (a.id == LayerN ==> a.modelId == b.modelId && a.paramNb == b.paramNb)
  {
    if a.id != b.id then 1
    else if a.layerNb != b.layerNb then 1
    else if a.id == LayerN && (a.modelId != b.modelId || a.paramNb != b.paramNb) then 1
    else 0
  }

  /** Comparing is an equivalence: reflexive, symmetric and transitive. */
  lemma CompareIsEquivalence(a: FitParam, b: FitParam, c: FitParam)
    ensures Compare(a, a) == 0
    ensures Compare(a, b) == Compare(b, a)
    ensures Compare(a, b) == 0 && Compare(b, c) == 0 ==> Compare(a, c) == 0
  {
  }

  /** Two thickness parameters, or two dispersion parameters, are the same
      exactly when the arguments that built them are; the two kinds never meet. */
  lemma ConstructorsIdentity(l1: int, l2: int, m1: int, m2: int, p1: int, p2: int)
    ensures Compare(ThickParam(l1), ThickParam(l2)) == 0 <==> l1 == l2
    ensures Compare(ModelParam(l1, m1, p1), ModelParam(l2, m2, p2)) == 0 <==>
      l1 == l2 && m1 == m2 && p1 == p2
    ensures Compare(ThickParam(l1), ModelParam(l2, m2, p2)) == 1
  {
  }

  // ---------------------------------------------------------------------
  // Counted arrays: struct fit_parameters and struct seeds share the layout
  // { values, number, alloc } of the ARRAY_* macros.

  class CountedArray<T(0)> {
    var values: array<T>
    var number: nat

    ghost predicate Valid()
      reads this
    {
      number <= values.Length
    }

    /** The entries in use, in order. */
    ghost function Contents(): seq<T>
      reads this, values
      requires Valid()
    {
      values[..number]
    }

    /** ARRAY_NEW: an empty array. */
    constructor ()
      ensures Valid() && Contents() == [] && fresh(values)
    {
      values := new T[16];
      number := 0;
    }

    /** ARRAY_CHECK_ALLOC: make room for one more entry; the entries do not
        change.  The growth policy of the macro is not shown; the model
        doubles the storage. */
    method CheckAlloc()
      requires Valid()
      modifies this`values
      ensures Valid() && number < values.Length
      ensures Contents() == old(Contents())
      ensures values != old(values) ==> fresh(values)
    {
      if number == values.Length {
        var grown := new T[2 * values.Length + 1];
        forall i | 0 <= i < number {
          grown[i] := values[i];
        }
        values := grown;
      }
    }

    /** fit_parameters_add / seed_list_add: copy the entry to position
        `number` and count it.  No duplicate check is made. */
    method Add(x: T)
      requires Valid()
      modifies this, values
      ensures Valid()
      ensures Contents() == old(Contents()) + [x]
      ensures values != old(values) ==> fresh(values)
    {
      CheckAlloc();
      values[number] := x;
      number := number + 1;
    }

    /** fit_parameters_remove / seed_list_remove: shift the entries after
        `index` left by one and drop the count by one.  An `index` at or past
        the count leaves the loop without work, so the last entry is dropped. */
    method Remove(index: int)
      requires Valid() && number >= 1 && index >= 0
      modifies this`number, values
      ensures Valid() && values == old(values) && number == old(number) - 1
      ensures index < old(number) ==>
        Contents() == old(Contents()[..index]) + old(Contents()[index + 1..])
      ensures index >= old(number) ==> Contents() == old(Contents()[..number - 1])
    {
      var n := number;
      if index < n {
        var i := index;
        while i + 1 < n
          invariant number == n && n <= values.Length
          invariant index <= i < n
          invariant forall k :: 0 <= k < index ==> values[k] == old(values[k])
          invariant forall k :: index <= k < i ==> values[k] == old(values[k + 1])
          invariant forall k :: i <= k < values.Length ==> values[k] == old(values[k])
        {
          values[i] := values[i + 1];
          i := i + 1;
        }
      }
      number := number - 1;
    }

    /** fit_parameters_clear: the count drops to zero, the storage stays. */
    method Clear()
      requires Valid()
      modifies this`number
      ensures Valid() && Contents() == []
    {
      number := 0;
    }
  }

  // ---------------------------------------------------------------------
  // Lookup over a fit-parameter list.

  /** fit_parameters_find: the lowest index whose entry compares equal to
      `fp`, or -1 when none does. */
  method Find(lst: CountedArray<FitParam>, fp: FitParam) returns (j: int)
    requires lst.Valid()
    ensures -1 <= j < lst.number
    ensures j >= 0 ==> Compare(lst.values[j], fp) == 0
    ensures forall k :: 0 <= k < lst.number && (j < 0 || k < j) ==> Compare(lst.values[k], fp) != 0
  {
    j := 0;
    while j < lst.number
      invariant 0 <= j <= lst.number
      invariant forall k :: 0 <= k < j ==> Compare(lst.values[k], fp) != 0
    {
      if Compare(lst.values[j], fp) == 0 {
        return;
      }
      j := j + 1;
    }
    j := -1;
  }

  /** fit_parameters_are_RI_fixed: true iff no entry is a dispersion parameter. */
  method AreRIFixed(lst: CountedArray<FitParam>) returns (fixed: bool)
    requires lst.Valid()
    ensures fixed <==> forall k :: 0 <= k < lst.number ==> lst.values[k].id != LayerN
  {
    var j := 0;
    while j < lst.number
      invariant 0 <= j <= lst.number
      invariant forall k :: 0 <= k < j ==> lst.values[k].id != LayerN
    {
      if lst.values[j].id == LayerN {
        break;
      }
      j := j + 1;
    }
    fixed := j >= lst.number;
  }

  // ---------------------------------------------------------------------
  // Layer-renumbering fix-ups.

  /** What fix_delete_layer does to one entry. */
  function DeleteFix(fp: FitParam, index: int): FitParam
  {
    if fp.id.LayerScoped() && fp.layerNb >= index then
      if fp.layerNb > index then fp.(layerNb := fp.layerNb - 1) else fp.(id := Invalid)
    else fp
  }

  /** What fix_insert_layer does to one entry. */
  function InsertFix(fp: FitParam, index: int): FitParam
  {
    if fp.id.LayerScoped() && fp.layerNb >= index then fp.(layerNb := fp.layerNb + 1) else fp
  }

  ghost function DeleteLayerFix(s: seq<FitParam>, index: int): seq<FitParam>
  {
    seq(|s|, k requires 0 <= k < |s| => DeleteFix(s[k], index))
  }

  ghost function InsertLayerFix(s: seq<FitParam>, index: int): seq<FitParam>
  {
    seq(|s|, k requires 0 <= k < |s| => InsertFix(s[k], index))
  }

  /** fix_delete_layer: every entry is rewritten in place by DeleteFix; the
      count does not change. */
  method FixDeleteLayer(lst: CountedArray<FitParam>, index: int)
    requires lst.Valid()
    modifies lst.values
    ensures lst.Valid() && lst.number == old(lst.number)
    ensures lst.Contents() == DeleteLayerFix(old(lst.Contents()), index)
  {
    var i := 0;
    while i < lst.number
      invariant 0 <= i <= lst.number
      invariant forall k :: 0 <= k < i ==> lst.values[k] == DeleteFix(old(lst.values[k]), index)
      invariant forall k :: i <= k < lst.values.Length ==> lst.values[k] == old(lst.values[k])
    {
      var fp := lst.values[i];
      if fp.id.LayerScoped() && fp.layerNb >= index {
        if fp.layerNb > index {
          lst.values[i] := fp.(layerNb := fp.layerNb - 1);
        } else {
          lst.values[i] := fp.(id := Invalid);
        }
      }
      i := i + 1;
    }
  }

  /** fix_insert_layer: every entry is rewritten in place by InsertFix; the
      count does not change. */
  method FixInsertLayer(lst: CountedArray<FitParam>, index: int)
    requires lst.Valid()
    modifies lst.values
    ensures lst.Valid() && lst.number == old(lst.number)
    ensures lst.Contents() == InsertLayerFix(old(lst.Contents()), index)
  {
    var i := 0;
    while i < lst.number
      invariant 0 <= i <= lst.number
      invariant forall k :: 0 <= k < i ==> lst.values[k] == InsertFix(old(lst.values[k]), index)
      invariant forall k :: i <= k < lst.values.Length ==> lst.values[k] == old(lst.values[k])
    {
      var fp := lst.values[i];
      if fp.id.LayerScoped() && fp.layerNb >= index {
        lst.values[i] := fp.(layerNb := fp.layerNb + 1);
      }
      i := i + 1;
    }
  }

  /** enum shift_event: delete, insert, or any other event. */
  datatype ShiftEvent = ShiftDeleteLayer | ShiftInsertLayer | ShiftOther
  datatype ShiftInfo = ShiftInfo(event: ShiftEvent, index: int)

  /** fit_parameters_fix_layer_shift: dispatch on the event; events other
      than insert and delete change nothing. */
  method FixLayerShift(lst: CountedArray<FitParam>, shift: ShiftInfo)
    requires lst.Valid()
    modifies lst.values
    ensures lst.Valid() && lst.number == old(lst.number)
    ensures shift.event == ShiftDeleteLayer ==>
      lst.Contents() == DeleteLayerFix(old(lst.Contents()), shift.index)
    ensures shift.event == ShiftInsertLayer ==>
      lst.Contents() == InsertLayerFix(old(lst.Contents()), shift.index)
    ensures shift.event == ShiftOther ==> lst.Contents() == old(lst.Contents())
  {
    if shift.event == ShiftDeleteLayer {
      FixDeleteLayer(lst, shift.index);
    } else if shift.event == ShiftInsertLayer {
      FixInsertLayer(lst, shift.index);
    }
  }

  /** Deleting a layer invalidates exactly the layer-scoped entries of that
      layer, renumbers the layer-scoped entries above it, and leaves every
      other entry as it was. */
  lemma {:induction false} DeleteLayerEffect(s: seq<FitParam>, index: int, k: int)
    requires 0 <= k < |s|
    ensures |DeleteLayerFix(s, index)| == |s|
    ensures var r := DeleteLayerFix(s, index)[k];
      && (r.id == Invalid <==> s[k].id == Invalid || (s[k].id.LayerScoped() && s[k].layerNb == index))
      && (s[k].id.LayerScoped() && s[k].layerNb > index ==> r == s[k].(layerNb := s[k].layerNb - 1))
      && (!s[k].id.LayerScoped() || s[k].layerNb < index ==> r == s[k])
      && r.modelId == s[k].modelId && r.paramNb == s[k].paramNb
  {
  }

  /** Inserting a layer renumbers exactly the layer-scoped entries at or
      above it; every other field and entry is unchanged. */
  lemma {:induction false} InsertLayerEffect(s: seq<FitParam>, index: int, k: int)
    requires 0 <= k < |s|
    ensures |InsertLayerFix(s, index)| == |s|
    ensures var r := InsertLayerFix(s, index)[k];
      && r.id == s[k].id && r.modelId == s[k].modelId && r.paramNb == s[k].paramNb
      && r.layerNb == (if s[k].id.LayerScoped() && s[k].layerNb >= index then s[k].layerNb + 1 else s[k].layerNb)
  {
  }

  /** Deleting the layer just inserted restores every parameter. */
  lemma {:induction false} InsertThenDeleteRestores(s: seq<FitParam>, index: int)
    ensures DeleteLayerFix(InsertLayerFix(s, index), index) == s
  {
    var t := InsertLayerFix(s, index);
    var r := DeleteLayerFix(t, index);
    forall k | 0 <= k < |s|
      ensures r[k] == s[k]
    {
      assert t[k] == InsertFix(s[k], index);
    }
  }

  /** No two entries of the list denote the same scalar. */
  ghost predicate Distinct(s: seq<FitParam>)
  {
    forall i, j :: 0 <= i < j < |s| ==> Compare(s[i], s[j]) != 0
  }

  /** The same, ignoring entries already marked invalid. */
  ghost predicate DistinctValid(s: seq<FitParam>)
  {
    forall i, j :: 0 <= i < j < |s| && s[i].id != Invalid && s[j].id != Invalid ==>
      Compare(s[i], s[j]) != 0
  }

  /** Inserting a layer keeps a duplicate-free list duplicate-free. */
  lemma {:induction false} InsertKeepsDistinct(s: seq<FitParam>, index: int)
    requires Distinct(s)
    ensures Distinct(InsertLayerFix(s, index))
  {
    var t := InsertLayerFix(s, index);
    forall i, j | 0 <= i < j < |t|
      ensures Compare(t[i], t[j]) != 0
    {
      assert t[i] == InsertFix(s[i], index) && t[j] == InsertFix(s[j], index);
      assert Compare(s[i], s[j]) != 0;
    }
  }

  /** Deleting a layer never makes two surviving (valid) entries collide. */
  lemma {:induction false} DeleteKeepsValidDistinct(s: seq<FitParam>, index: int)
    requires DistinctValid(s)
    ensures DistinctValid(DeleteLayerFix(s, index))
  {
    var t := DeleteLayerFix(s, index);
    forall i, j | 0 <= i < j < |t| && t[i].id != Invalid && t[j].id != Invalid
      ensures Compare(t[i], t[j]) != 0
    {
      assert t[i] == DeleteFix(s[i], index) && t[j] == DeleteFix(s[j], index);
      assert s[i].id != Invalid && s[j].id != Invalid;
      assert Compare(s[i], s[j]) != 0;
    }
  }

  /** The worked case: a thickness on layer 1, a dispersion parameter on
      layer 2 and the first multiplier, under deletion and insertion of layer 1. */
  lemma LayerShiftExample()
    ensures DeleteLayerFix([ThickParam(1), ModelParam(2, 1, 0), FitParam(FirstMul, 0, 0, 0)], 1)
         == [FitParam(Invalid, 1, 0, 0), ModelParam(1, 1, 0), FitParam(FirstMul, 0, 0, 0)]
    ensures InsertLayerFix([ThickParam(1), ModelParam(2, 1, 0), FitParam(FirstMul, 0, 0, 0)], 1)
         == [ThickParam(2), ModelParam(3, 1, 0), FitParam(FirstMul, 0, 0, 0)]
  {
    var s := [ThickParam(1), ModelParam(2, 1, 0), FitParam(FirstMul, 0, 0, 0)];
    assert DeleteLayerFix(s, 1)[0] == FitParam(Invalid, 1, 0, 0);
    assert InsertLayerFix(s, 1)[0] == ThickParam(2);
  }

  // ---------------------------------------------------------------------
  // Seeds.

  datatype SeedKind = SeedSimple | SeedRange

  /** seed_t: a fixed value, or a range whose representative is its midpoint. */
  datatype Seed = Seed(kind: SeedKind, seed: real, min: real, max: real, step: real)

  /** seed_list_add_simple: the new entry is a simple seed holding `v`; only
      its kind and value are written, so the slot's range fields keep
      whatever they held. */
  method SeedListAddSimple(s: CountedArray<Seed>, v: real)
    requires s.Valid()
    modifies s, s.values
    ensures s.Valid() && |s.Contents()| == |old(s.Contents())| + 1
    ensures s.Contents()[..|old(s.Contents())|] == old(s.Contents())
    ensures var e := s.Contents()[|old(s.Contents())|]; e.kind == SeedSimple && e.seed == v
  {
    s.CheckAlloc();
    var idx := s.number;
    s.values[idx] := s.values[idx].(kind := SeedSimple, seed := v);
    s.number := s.number + 1;
  }

  /** parse_fit_string after the scan: `scanned` are the fields sscanf
      matched, in order (min, max, step), each written into the seed as it
      is matched.  Three fields make a range seed whose value is the midpoint;
      fewer return 1 and leave the kind and value alone. */
  function ParseFitString(scanned: seq<real>, s: Seed): (r: (int, Seed))
    requires |scanned| <= 3
    ensures r.0 == 0 <==> |scanned| == 3
    ensures r.0 == 0 || r.0 == 1
    ensures r.0 == 0 ==> r.1 == Seed(SeedRange, (scanned[0] + scanned[1]) / 2.0, scanned[0], scanned[1], scanned[2])
    ensures r.0 == 1 ==> r.1.kind == s.kind && r.1.seed == s.seed && r.1.step == s.step
    ensures |scanned| >= 1 ==> r.1.min == scanned[0]
    ensures |scanned| >= 2 ==> r.1.max == scanned[1]
  {
    var s1 := if |scanned| >= 1 then s.(min := scanned[0]) else s;
    var s2 := if |scanned| >= 2 then s1.(max := scanned[1]) else s1;
    var s3 := if |scanned| >= 3 then s2.(step := scanned[2]) else s2;
    if |scanned| == 3 then (0, s3.(kind := SeedRange, seed := (s3.min + s3.max) / 2.0))
    else (1, s3)
  }

  /** The representative value of a well-formed range lies inside it. */
  lemma RangeSeedInside(scanned: seq<real>, s: Seed)
    requires |scanned| == 3 && scanned[0] <= scanned[1]
    ensures var r := ParseFitString(scanned, s).1; r.min <= r.seed <= r.max
  {
  }

  // ---------------------------------------------------------------------
  // Names.

  /** A dispersion class as far as naming is concerned: its model id and its
      (possibly absent) parameter encoder. */
  datatype DispClass = DispClass(modelId: int, encodeParam: Option<FitParam -> string>)

  /** The first class of the registry whose model id matches, if any. */
  function FindClass(registry: seq<DispClass>, modelId: int): (r: Option<nat>)
    ensures r.Some? ==> r.value < |registry| && registry[r.value].modelId == modelId
    ensures r.Some? ==> forall i :: 0 <= i < r.value ==> registry[i].modelId != modelId
    ensures r.None? ==> forall i :: 0 <= i < |registry| ==> registry[i].modelId != modelId
  {
    if |registry| == 0 then None
    else if registry[0].modelId == modelId then Some(0)
    else match FindClass(registry[1..], modelId)
      case None => None
      case Some(i) => Some(i + 1)
  }

  /** The class chosen for a dispersion parameter has an encoder: the source
      calls it without checking. */
  predicate EncoderAvailable(registry: seq<DispClass>, fp: FitParam)
  {
    fp.id == LayerN && FindClass(registry, fp.modelId).Some? ==>
      registry[FindClass(registry, fp.modelId).value].encodeParam.Some?
  }

  /** get_disp_param_name: the encoder of the first class whose model id
      matches, or "###" for a non-dispersion parameter or an unknown model. */
  function DispParamName(registry: seq<DispClass>, fp: FitParam): (name: string)
    requires EncoderAvailable(registry, fp)
    ensures fp.id != LayerN ==> name == "###"
    ensures fp.id == LayerN && (forall i :: 0 <= i < |registry| ==> registry[i].modelId != fp.modelId) ==>
      name == "###"
    ensures forall i :: (0 <= i < |registry| && fp.id == LayerN && registry[i].modelId == fp.modelId &&
      (forall j :: 0 <= j < i ==> registry[j].modelId != fp.modelId)) ==>
        registry[i].encodeParam.Some? && name == registry[i].encodeParam.value(fp)
  {
    if fp.id != LayerN then "###"
    else match FindClass(registry, fp.modelId)
      case None => "###"
      case Some(i) => registry[i].encodeParam.value(fp)
  }

  function DigitChar(d: nat): (c: char)
    requires d < 10
    ensures '0' <= c <= '9'
  {
    ['0', '1', '2', '3', '4', '5', '6', '7', '8', '9'][d]
  }

  /** The decimal digits of a natural number, most significant first. */
  function NatDigits(n: nat): (s: string)
    ensures |s| >= 1 && forall i :: 0 <= i < |s| ==> '0' <= s[i] <= '9'
  {
    if n < 10 then [DigitChar(n)] else NatDigits(n / 10) + [DigitChar(n % 10)]
  }

  /** `%i` of an int. */
  function Decimal(n: int): string
  {
    if n < 0 then "-" + NatDigits(-n) else NatDigits(n)
  }

  /** The value of a non-empty string of decimal digits. */
  function DigitsValue(s: string): nat
    requires forall i :: 0 <= i < |s| ==> '0' <= s[i] <= '9'
  {
    if |s| == 0 then 0 else DigitsValue(s[..|s| - 1]) * 10 + (s[|s| - 1] as int - '0' as int)
  }

  /** Reading the digits back yields the number. */
  lemma {:induction false} NatDigitsRoundTrip(n: nat)
    ensures DigitsValue(NatDigits(n)) == n
  {
    var s := NatDigits(n);
    if n >= 10 {
      NatDigitsRoundTrip(n / 10);
      assert s[..|s| - 1] == NatDigits(n / 10);
      DigitCharValue(n % 10);
      assert s[|s| - 1] == DigitChar(n % 10);
    } else {
      DigitCharValue(n);
    }
  }

  /** The character of a digit encodes its value. */
  lemma DigitCharValue(d: nat)
    requires d < 10
    ensures DigitChar(d) as int - '0' as int == d
  {
  }

  lemma NatDigitsInjective(x: nat, y: nat)
    requires NatDigits(x) == NatDigits(y)
    ensures x == y
  {
    NatDigitsRoundTrip(x);
    NatDigitsRoundTrip(y);
  }

  /** A decimal form starts with a minus sign exactly for a negative int. */
  lemma DecimalSign(n: int)
    ensures |Decimal(n)| >= 1 && (Decimal(n)[0] == '-' <==> n < 0)
  {
  }

  /** The decimal form of an int determines it. */
  lemma DecimalInjective(a: int, b: int)
    requires Decimal(a) == Decimal(b)
    ensures a == b
  {
    DecimalSign(a);
    DecimalSign(b);
    var da, db := Decimal(a), Decimal(b);
    if a < 0 && b < 0 {
      assert da[1..] == NatDigits(-a);
      assert db[1..] == NatDigits(-b);
      NatDigitsInjective(-a, -b);
    } else if a >= 0 && b >= 0 {
      NatDigitsInjective(a, b);
    }
  }

  /** get_param_name: "T<layer>" for a thickness, "1stmult" for the first
      multiplier, the class encoding for a dispersion parameter, "###" otherwise. */
  function ParamName(registry: seq<DispClass>, fp: FitParam): (name: string)
    requires EncoderAvailable(registry, fp)
    ensures fp.id == Thickness ==> name == "T" + Decimal(fp.layerNb)
    ensures fp.id == FirstMul ==> name == "1stmult"
    ensures fp.id == Invalid ==> name == "###"
    ensures fp.id == LayerN ==> name == DispParamName(registry, fp)
  {
    match fp.id
    case Thickness => "T" + Decimal(fp.layerNb)
    case FirstMul => "1stmult"
    case LayerN => DispParamName(registry, fp)
    case Invalid => "###"
  }

  /** Thickness names tell layers apart and never collide with the fixed
      names. */
  lemma ThicknessNamesDistinct(registry: seq<DispClass>, a: FitParam, b: FitParam)
    requires a.id == Thickness && b.id == Thickness
    ensures ParamName(registry, a) == ParamName(registry, b) <==> Compare(a, b) == 0
    ensures ParamName(registry, a) != "1stmult" && ParamName(registry, a) != "###"
  {
    var na, nb := ParamName(registry, a), ParamName(registry, b);
    if na == nb {
      assert Decimal(a.layerNb) == na[1..] && Decimal(b.layerNb) == nb[1..];
      DecimalInjective(a.layerNb, b.layerNb);
    }
    assert na[0] == 'T';
  }

  // ---------------------------------------------------------------------
  // The tokens fit_param_write emits for one parameter.

  datatype Token = Word(w: string) | Number(n: int)

  /** Name of a model id in the written form, "unknown" outside 1..MODEL_NONE-1. */
  function ModelName(mid: int): string
  {
    if 1 <= mid < ModelNone then ["ho", "cauchy", "lookup", "bruggeman"][mid - 1] else "unknown"
  }

  /** fit_param_write: the kind name, then for a layer-scoped parameter its
      layer, then for a dispersion parameter the model name and parameter number. */
  function WriteTokens(fp: FitParam): (t: seq<Token>)
    ensures |t| >= 1
    ensures t[0] == Word(["thickness", "n", "firstmul", "invalid"][fp.id.Code() - 1])
    ensures fp.id.LayerScoped() <==> |t| >= 2
    ensures |t| >= 2 ==> t[1] == Number(fp.layerNb)
    ensures fp.id == LayerN <==> |t| == 4
    ensures |t| == 4 ==> t[2] == Word(ModelName(fp.modelId)) && t[3] == Number(fp.paramNb)
  {
    var name := Word(if Thickness.Code() <= fp.id.Code() < Invalid.Code() then
                       ["thickness", "n", "firstmul"][fp.id.Code() - 1] else "invalid");
    if !fp.id.LayerScoped() then [name]
    else if fp.id == LayerN then [name, Number(fp.layerNb), Word(ModelName(fp.modelId)), Number(fp.paramNb)]
    else [name, Number(fp.layerNb)]
  }

  /** Equal parameters are written alike; for thickness and dispersion
      parameters of a known model the written form also tells them apart. */
  lemma WriteTokensIdentity(a: FitParam, b: FitParam)
    ensures Compare(a, b) == 0 ==> WriteTokens(a) == WriteTokens(b)
    ensures (a.id in {Thickness, LayerN} && b.id in {Thickness, LayerN} &&
      (a.id == LayerN ==> 1 <= a.modelId < ModelNone) && (b.id == LayerN ==> 1 <= b.modelId < ModelNone) &&
      WriteTokens(a) == WriteTokens(b)) ==> Compare(a, b) == 0
  {
    if a.id in {Thickness, LayerN} && b.id in {Thickness, LayerN} &&
      (a.id == LayerN ==> 1 <= a.modelId < ModelNone) && (b.id == LayerN ==> 1 <= b.modelId < ModelNone) &&
      WriteTokens(a) == WriteTokens(b)
    {
      assert WriteTokens(a)[0] == WriteTokens(b)[0];
      if a.id == LayerN {
        var names := ["ho", "cauchy", "lookup", "bruggeman"];
        assert WriteTokens(a)[2] == WriteTokens(b)[2];
        assert names[a.modelId - 1] == names[b.modelId - 1];
      }
    }
  }

  /** The written form drops the layer of the first multiplier, which the
      comparison still looks at: two first multipliers on different layers
      are written alike yet compare unequal. */
  lemma FirstMulLayerNotWritten()
    ensures WriteTokens(FitParam(FirstMul, 0, 0, 0)) == WriteTokens(FitParam(FirstMul, 1, 0, 0))
    ensures Compare(FitParam(FirstMul, 0, 0, 0), FitParam(FirstMul, 1, 0, 0)) == 1
  {
  }
}
