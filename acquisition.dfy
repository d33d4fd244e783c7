/** The kinds of measuring system (src/acquisition.h) and the two macros
    that give, for a kind, its number of measured channels and of
    acquisition parameters.  The macros take the enumeration's integer
    value, so they are modelled on integers and related to the kinds by
    their ordinal. */
module Acquisition {

  /** enum system_kind, in declaration order. */
  datatype SystemKind = Undefined | Reflectometer | EllissAB | EllissPsiDel | ExceedValue

  /** The enumeration's integer value: consecutive from SYSTEM_UNDEFINED = 0. */
  function Ordinal(k: SystemKind): (n: nat)
    ensures n < 5
  {
    match k
    case Undefined => 0
    case Reflectometer => 1
    case EllissAB => 2
    case EllissPsiDel => 3
    case ExceedValue => 4
  }

  /** The kind with integer value n. */
  function KindOf(n: nat): SystemKind
    requires n < 5
  {
    if n == 0 then Undefined
    else if n == 1 then Reflectometer
    else if n == 2 then EllissAB
    else if n == 3 then EllissPsiDel
    else ExceedValue
  }

  /** The values are consecutive from 0 and each names exactly one kind. */
  lemma OrdinalBijective(k: SystemKind, n: nat)
    requires n < 5
    ensures KindOf(Ordinal(k)) == k
    ensures Ordinal(KindOf(n)) == n
    ensures Ordinal(k) == n <==> k == KindOf(n)
  {
  }

  /** SYSTEM_CHANNELS_NUMBER on an integer kind value. */
  function ChannelsNumber(k: int): (r: nat)
    ensures r <= 2
    ensures r == 0 <==> k == Ordinal(Undefined)
    ensures r == 1 <==> k == Ordinal(Reflectometer)
  {
    if k == Ordinal(Undefined) then 0 else if k == Ordinal(Reflectometer) then 1 else 2
  }

  /** SYSTEM_ACQUISITION_PARAMS_NUMBER on an integer kind value;
      SR_ACQ_PARAMETERS_NB is defined elsewhere and is a parameter here. */
  function AcquisitionParamsNumber(k: int, srParams: nat): (r: nat)
    ensures k == Ordinal(Undefined) ==> r == 0
    ensures k == Ordinal(Reflectometer) ==> r == srParams
    ensures k != Ordinal(Undefined) && k != Ordinal(Reflectometer) ==>
              2 <= r <= 3 && (r == 3 <==> k == Ordinal(EllissAB))
  {
    if k == Ordinal(Undefined) then 0
    else if k == Ordinal(Reflectometer) then srParams
    else if k == Ordinal(EllissAB) then 3
    else 2
  }

  /** An undefined system has no channel and no parameter; a reflectometer
      one channel and SR_ACQ_PARAMETERS_NB parameters; every other kind,
      SYSTEM_EXCEED_VALUE included, two channels, with three parameters for
      SYSTEM_ELLISS_AB and two for the rest. */
  lemma KindCounts(k: SystemKind, srParams: nat)
    ensures ChannelsNumber(Ordinal(k)) == 0 <==> k == Undefined
    ensures ChannelsNumber(Ordinal(k)) == 1 <==> k == Reflectometer
    ensures ChannelsNumber(Ordinal(k)) == 2 <==> k != Undefined && k != Reflectometer
    ensures k == Undefined ==> AcquisitionParamsNumber(Ordinal(k), srParams) == 0
    ensures k == Reflectometer ==> AcquisitionParamsNumber(Ordinal(k), srParams) == srParams
    ensures k == EllissAB ==> AcquisitionParamsNumber(Ordinal(k), srParams) == 3
    ensures k == EllissPsiDel || k == ExceedValue ==> AcquisitionParamsNumber(Ordinal(k), srParams) == 2
  {
  }

  /** Integer values outside the enumeration count as two-channel systems
      with two parameters. */
  lemma OutOfRangeCounts(k: int, srParams: nat)
    requires k < 0 || k >= 5
    ensures ChannelsNumber(k) == 2 && AcquisitionParamsNumber(k, srParams) == 2
  {
  }
}
