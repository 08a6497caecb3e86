/** The ComfortState bit flags: four single flags on separate bits, and the four
    named composites, each the bitwise OR of a temperature flag and a humidity flag. */
module ComfortStates {
  import opened Wrappers

  /** The source's enum values are small integers combined with `|`. */
  type ComfortState = bv8

  const ComfortOK: ComfortState := 0
  const TooHot: ComfortState := 1
  const TooCold: ComfortState := 2
  const TooDry: ComfortState := 4
  const TooHumid: ComfortState := 8

  const HotAndDry: ComfortState := TooHot | TooDry
  const ColdAndDry: ComfortState := TooCold | TooDry
  const HotAndHumid: ComfortState := TooHot | TooHumid
  const ColdAndHumid: ComfortState := TooCold | TooHumid

  /** The temperature axis of a state: at most one of TooHot and TooCold. */
  datatype TempFlag = TempOK | Hot | Cold

  /** The humidity axis of a state: at most one of TooDry and TooHumid. */
  datatype HumidFlag = HumidOK | Dry | Humid

  function TempBits(t: TempFlag): ComfortState {
    match t
    case TempOK => ComfortOK
    case Hot => TooHot
    case Cold => TooCold
  }

  function HumidBits(h: HumidFlag): ComfortState {
    match h
    case HumidOK => ComfortOK
    case Dry => TooDry
    case Humid => TooHumid
  }

  /** The nine values the enum names: OK, the four single flags and the four composites. */
  predicate Named(s: ComfortState) {
    s == ComfortOK || s == TooHot || s == TooCold || s == TooDry || s == TooHumid
    || s == HotAndDry || s == ColdAndDry || s == HotAndHumid || s == ColdAndHumid
  }

  /** Combining one flag per axis with bitwise OR: the two axes sit on disjoint bits,
      so each axis can be read back by masking, and only OK/OK gives Comfort_OK. */
  function Combine(t: TempFlag, h: HumidFlag): (s: ComfortState)
    ensures s & (TooHot | TooCold) == TempBits(t)
    ensures s & (TooDry | TooHumid) == HumidBits(h)
    ensures s == ComfortOK <==> t == TempOK && h == HumidOK
    ensures Named(s)
  {
    TempBits(t) | HumidBits(h)
  }

  /** Reads a state back into its two axes; None for bit patterns the enum does not
      name (both hot and cold, both dry and humid, or bits above the fourth). */
  function Split(s: ComfortState): (r: Option<(TempFlag, HumidFlag)>)
    ensures r.Some? ==> Combine(r.value.0, r.value.1) == s
    ensures r.Some? <==> Named(s)
  {
    if s & 0xF0 != 0 then None
    else
      var t := s & (TooHot | TooCold);
      var h := s & (TooDry | TooHumid);
      if t == TooHot | TooCold || h == TooDry | TooHumid then None
      else
        Some((if t == TooHot then Hot else if t == TooCold then Cold else TempOK,
              if h == TooDry then Dry else if h == TooHumid then Humid else HumidOK))
  }

  /** Composites decompose uniquely: splitting a combination gives back its axes. */
  lemma SplitCombine(t: TempFlag, h: HumidFlag)
    ensures Split(Combine(t, h)) == Some((t, h))
  {
    match t {
      case TempOK =>
        match h { case HumidOK => case Dry => case Humid => }
      case Hot =>
        match h { case HumidOK => case Dry => case Humid => }
      case Cold =>
        match h { case HumidOK => case Dry => case Humid => }
    }
  }

  /** Combine is injective: different axis pairs never share a state value. */
  lemma CombineInjective(t1: TempFlag, h1: HumidFlag, t2: TempFlag, h2: HumidFlag)
    requires Combine(t1, h1) == Combine(t2, h2)
    ensures t1 == t2 && h1 == h2
  {
    SplitCombine(t1, h1);
    SplitCombine(t2, h2);
  }

  /** The single flags are distinct powers of two. */
  lemma SingleFlagsArePowersOfTwo()
    ensures TooHot != 0 && TooHot & (TooHot - 1) == 0
    ensures TooCold != 0 && TooCold & (TooCold - 1) == 0
    ensures TooDry != 0 && TooDry & (TooDry - 1) == 0
    ensures TooHumid != 0 && TooHumid & (TooHumid - 1) == 0
    ensures TooHot & TooCold == 0 && TooHot & TooDry == 0 && TooHot & TooHumid == 0
    ensures TooCold & TooDry == 0 && TooCold & TooHumid == 0 && TooDry & TooHumid == 0
  {
  }

  /** Each named composite is the combination of its two parts. */
  lemma CompositesCombine()
    ensures HotAndDry == Combine(Hot, Dry) && ColdAndDry == Combine(Cold, Dry)
    ensures HotAndHumid == Combine(Hot, Humid) && ColdAndHumid == Combine(Cold, Humid)
  {
  }
}
