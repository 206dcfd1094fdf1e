/**
 * `RangeSlider`: a two-handle slider over `[min, max]` whose values live in the
 * parent (`valueMin`, `valueMax`, null meaning the range end), with local
 * values shown while a handle is dragged. Pixel positions are not modelled:
 * each pointer event carries the stepped value it lands on, before clamping.
 */
module RangeSlider {
  import opened Options
  import opened Numbers

  datatype Handle = MinHandle | MaxHandle

  /** The range and the parent's values. */
  datatype RangeProps = RangeProps(min: int, max: int, valueMin: Option<int>, valueMax: Option<int>)

  /** `dragging`, `localMin`, `localMax`. */
  datatype DragState = DragState(dragging: Option<Handle>, localMin: Option<int>, localMax: Option<int>)

  const Idle := DragState(None, None, None)

  /** A call of `onChangeMin` or `onChangeMax`. */
  datatype Change = ChangeMin(newMin: Option<int>) | ChangeMax(newMax: Option<int>)

  /** `effectiveMin`: the local value only while the min handle is dragged, else `valueMin ?? min`. */
  function EffectiveMin(p: RangeProps, s: DragState): (r: int)
    ensures s.dragging == Some(MinHandle) && s.localMin.Some? ==> r == s.localMin.value
    ensures !(s.dragging == Some(MinHandle) && s.localMin.Some?) ==> r == p.valueMin.GetOr(p.min)
  {
    if s.dragging == Some(MinHandle) && s.localMin.Some? then s.localMin.value else p.valueMin.GetOr(p.min)
  }

  /** `effectiveMax`: the local value only while the max handle is dragged, else `valueMax ?? max`. */
  function EffectiveMax(p: RangeProps, s: DragState): (r: int)
    ensures s.dragging == Some(MaxHandle) && s.localMax.Some? ==> r == s.localMax.value
    ensures !(s.dragging == Some(MaxHandle) && s.localMax.Some?) ==> r == p.valueMax.GetOr(p.max)
  {
    if s.dragging == Some(MaxHandle) && s.localMax.Some? then s.localMax.value else p.valueMax.GetOr(p.max)
  }

  /**
   * `getValueFromPercent` after its rounding step: the stepped value clamped to
   * the range, so the result is inside `[min, max]` whatever the pointer position.
   */
  function ValueFromPercent(min: int, max: int, stepped: int): (r: int)
    ensures min <= max ==> min <= r <= max
    ensures min <= stepped <= max ==> r == stepped
    ensures stepped < min ==> r == min
    ensures min <= max < stepped ==> r == max
  {
    Clamp(min, max, stepped)
  }

  /**
   * `handleTrackClick` as written: move the handle nearer to the click, the
   * min handle on a tie.
   */
  function TrackClickAsWritten(p: RangeProps, s: DragState, stepped: int): (r: Change)
    ensures var v := ValueFromPercent(p.min, p.max, stepped);
      if Abs(v - EffectiveMin(p, s)) <= Abs(v - EffectiveMax(p, s)) then r == ChangeMin(Some(v))
      else r == ChangeMax(Some(v))
  {
    var v := ValueFromPercent(p.min, p.max, stepped);
    if Abs(v - EffectiveMin(p, s)) <= Abs(v - EffectiveMax(p, s)) then ChangeMin(Some(v)) else ChangeMax(Some(v))
  }

  /** With both handles at 5 on a 0..10 range, a click at 8 moves the min handle to 8, past the max handle. */
  lemma TrackClickCrossesHandles()
    ensures var p := RangeProps(0, 10, Some(5), Some(5));
      && TrackClickAsWritten(p, Idle, 8) == ChangeMin(Some(8))
      && 8 > EffectiveMax(p, Idle)
  {
  }

  /** Crossing happens only then: with ordered handles, only coincident handles and a click above them cross. */
  lemma TrackClickCrossesOnlyWhenCoincident(p: RangeProps, s: DragState, stepped: int)
    requires EffectiveMin(p, s) <= EffectiveMax(p, s)
    ensures var v := ValueFromPercent(p.min, p.max, stepped);
      (TrackClickAsWritten(p, s, stepped) == ChangeMin(Some(v)) && v > EffectiveMax(p, s))
      <==> EffectiveMin(p, s) == EffectiveMax(p, s) < v
  {
  }

  /** A click above two coincident handles: the one input on which the written click crosses them. */
  predicate CoincidentClickAbove(p: RangeProps, s: DragState, stepped: int)
  {
    EffectiveMin(p, s) == EffectiveMax(p, s) < ValueFromPercent(p.min, p.max, stepped)
  }

  /** Away from that input, the written click keeps the handles in order. */
  lemma TrackClickAsWrittenKeepsOrder(p: RangeProps, s: DragState, stepped: int)
    requires EffectiveMin(p, s) <= EffectiveMax(p, s) && !CoincidentClickAbove(p, s, stepped)
    ensures match TrackClickAsWritten(p, s, stepped)
            case ChangeMin(v) => v.Some? && v.value <= EffectiveMax(p, s)
            case ChangeMax(v) => v.Some? && v.value >= EffectiveMin(p, s)
  {
    TrackClickCrossesOnlyWhenCoincident(p, s, stepped);
  }

  /**
   * The track click with ties broken towards the side of the click: coincident
   * handles and a click above them move the max handle. Otherwise as written.
   */
  function TrackClick(p: RangeProps, s: DragState, stepped: int): (r: Change)
    ensures var v := ValueFromPercent(p.min, p.max, stepped);
      && (r == ChangeMin(Some(v)) || r == ChangeMax(Some(v)))
      && (Abs(v - EffectiveMin(p, s)) < Abs(v - EffectiveMax(p, s)) ==> r == ChangeMin(Some(v)))
      && (Abs(v - EffectiveMin(p, s)) > Abs(v - EffectiveMax(p, s)) ==> r == ChangeMax(Some(v)))
    ensures EffectiveMin(p, s) < EffectiveMax(p, s) ==> r == TrackClickAsWritten(p, s, stepped)
  {
    var v := ValueFromPercent(p.min, p.max, stepped);
    var dMin, dMax := Abs(v - EffectiveMin(p, s)), Abs(v - EffectiveMax(p, s));
    if dMin < dMax || (dMin == dMax && v <= EffectiveMax(p, s)) then ChangeMin(Some(v)) else ChangeMax(Some(v))
  }

  /** The corrected click never puts the moved handle on the wrong side of the other one. */
  lemma TrackClickKeepsOrder(p: RangeProps, s: DragState, stepped: int)
    requires EffectiveMin(p, s) <= EffectiveMax(p, s)
    ensures match TrackClick(p, s, stepped)
            case ChangeMin(v) => v.Some? && v.value <= EffectiveMax(p, s)
            case ChangeMax(v) => v.Some? && v.value >= EffectiveMin(p, s)
  {
  }

  /** Pressing a handle: both locals start from the parent's values. */
  function MouseDown(p: RangeProps, h: Handle): (r: DragState)
    ensures r.dragging == Some(h)
    ensures r.localMin == Some(p.valueMin.GetOr(p.min)) && r.localMax == Some(p.valueMax.GetOr(p.max))
  {
    DragState(Some(h), Some(p.valueMin.GetOr(p.min)), Some(p.valueMax.GetOr(p.max)))
  }

  /** Pressing a handle does not move either handle. */
  lemma MouseDownKeepsPositions(p: RangeProps, s: DragState, h: Handle)
    requires s.dragging.None?
    ensures EffectiveMin(p, MouseDown(p, h)) == EffectiveMin(p, s)
    ensures EffectiveMax(p, MouseDown(p, h)) == EffectiveMax(p, s)
  {
  }

  /** `handleMouseMove`: the dragged local value follows the pointer but never passes the other handle. */
  function MouseMove(p: RangeProps, s: DragState, stepped: int): (r: DragState)
    ensures s.dragging.None? ==> r == s
    ensures s.dragging == Some(MinHandle) ==>
              r == s.(localMin := Some(Min(ValueFromPercent(p.min, p.max, stepped),
                                           s.localMax.GetOr(p.valueMax.GetOr(p.max)))))
    ensures s.dragging == Some(MaxHandle) ==>
              r == s.(localMax := Some(Max(ValueFromPercent(p.min, p.max, stepped),
                                           s.localMin.GetOr(p.valueMin.GetOr(p.min)))))
    ensures s.dragging == Some(MinHandle) ==> r.localMin.value <= s.localMax.GetOr(p.valueMax.GetOr(p.max))
    ensures s.dragging == Some(MaxHandle) ==> r.localMax.value >= s.localMin.GetOr(p.valueMin.GetOr(p.min))
  {
    var v := ValueFromPercent(p.min, p.max, stepped);
    match s.dragging
    case None => s
    case Some(MinHandle) => s.(localMin := Some(Min(v, s.localMax.GetOr(p.valueMax.GetOr(p.max)))))
    case Some(MaxHandle) => s.(localMax := Some(Max(v, s.localMin.GetOr(p.valueMin.GetOr(p.min)))))
  }

  /** `handleMouseUp`: commit the dragged handle's local value if there is one, then go idle. */
  function MouseUp(s: DragState): (r: (DragState, Option<Change>))
    ensures r.0 == Idle
    ensures r.1.Some? <==> (s.dragging == Some(MinHandle) && s.localMin.Some?)
                           || (s.dragging == Some(MaxHandle) && s.localMax.Some?)
    ensures s.dragging == Some(MinHandle) && s.localMin.Some? ==> r.1 == Some(ChangeMin(s.localMin))
    ensures s.dragging == Some(MaxHandle) && s.localMax.Some? ==> r.1 == Some(ChangeMax(s.localMax))
  {
    if s.dragging == Some(MinHandle) && s.localMin.Some? then (Idle, Some(ChangeMin(s.localMin)))
    else if s.dragging == Some(MaxHandle) && s.localMax.Some? then (Idle, Some(ChangeMax(s.localMax)))
    else (Idle, None)
  }

  /** Typing in the min box: a parsed value is capped at the max handle; unparseable text means null. */
  function TypedMin(p: RangeProps, s: DragState, parsed: Option<int>): (r: Change)
    ensures r.ChangeMin?
    ensures r.newMin.None? <==> parsed.None?
    ensures parsed.Some? ==> r.newMin.value == Min(parsed.value, EffectiveMax(p, s))
    ensures parsed.Some? ==> r.newMin.value <= EffectiveMax(p, s)
  {
    ChangeMin(if parsed.Some? then Some(Min(parsed.value, EffectiveMax(p, s))) else None)
  }

  /** Typing in the max box: a parsed value is floored at the min handle; unparseable text means null. */
  function TypedMax(p: RangeProps, s: DragState, parsed: Option<int>): (r: Change)
    ensures r.ChangeMax?
    ensures r.newMax.None? <==> parsed.None?
    ensures parsed.Some? ==> r.newMax.value == Max(parsed.value, EffectiveMin(p, s))
    ensures parsed.Some? ==> r.newMax.value >= EffectiveMin(p, s)
  {
    ChangeMax(if parsed.Some? then Some(Max(parsed.value, EffectiveMin(p, s))) else None)
  }

  /**
   * The slider together with a parent that stores whatever it is told, as the
   * filter panel does with `updateFilter`.
   */
  datatype Event =
    | TrackClickAt(stepped: int)
    | HandleDown(handle: Handle)
    | PointerMove(stepped: int)
    | PointerUp
    | TypeMin(parsed: Option<int>)
    | TypeMax(parsed: Option<int>)

  datatype Slider = Slider(props: RangeProps, drag: DragState)

  function Apply(p: RangeProps, c: Change): (r: RangeProps)
    ensures r.min == p.min && r.max == p.max
  {
    match c
    case ChangeMin(v) => p.(valueMin := v)
    case ChangeMax(v) => p.(valueMax := v)
  }

  function ApplyOpt(p: RangeProps, c: Option<Change>): RangeProps
  {
    if c.Some? then Apply(p, c.value) else p
  }

  /** Which track-click handler the slider runs: the component's own, or the corrected one. */
  datatype ClickRule = AsWritten | Corrected

  function Click(rule: ClickRule, p: RangeProps, s: DragState, stepped: int): Change
  {
    match rule
    case AsWritten => TrackClickAsWritten(p, s, stepped)
    case Corrected => TrackClick(p, s, stepped)
  }

  /**
   * One event. The window listeners for move and release exist only while
   * dragging. The component is `Step(AsWritten, ...)`.
   */
  function Step(rule: ClickRule, sl: Slider, e: Event): (r: Slider)
    ensures r.props.min == sl.props.min && r.props.max == sl.props.max
    ensures !e.TrackClickAt? && !e.PointerUp? && !e.TypeMin? && !e.TypeMax? ==> r.props == sl.props
    ensures e.TrackClickAt? || e.TypeMin? || e.TypeMax? ==> r.drag == sl.drag
    ensures e.PointerUp? ==> r.drag == if sl.drag.dragging.None? then sl.drag else Idle
    ensures e.TrackClickAt? ==> r.props == Apply(sl.props, Click(rule, sl.props, sl.drag, e.stepped))
  {
    var p, s := sl.props, sl.drag;
    match e
    case TrackClickAt(stepped) => Slider(Apply(p, Click(rule, p, s, stepped)), s)
    case HandleDown(h) => Slider(p, MouseDown(p, h))
    case PointerMove(stepped) => Slider(p, MouseMove(p, s, stepped))
    case PointerUp =>
      if s.dragging.None? then sl
      else
        var up := MouseUp(s);
        Slider(ApplyOpt(p, up.1), up.0)
    case TypeMin(parsed) => Slider(Apply(p, TypedMin(p, s, parsed)), s)
    case TypeMax(parsed) => Slider(Apply(p, TypedMax(p, s, parsed)), s)
  }

  predicate InRange(p: RangeProps, v: int)
  {
    p.min <= v <= p.max
  }

  /**
   * A drag is one press followed by moves and a release, and a typed number is
   * inside the range. Under the written handler, a click above two coincident
   * handles is excluded as well: it is the input on which that handler crosses them.
   */
  predicate Plausible(rule: ClickRule, sl: Slider, e: Event)
  {
    && (sl.drag.dragging.Some? ==> e.PointerMove? || e.PointerUp?)
    && (e.TypeMin? && e.parsed.Some? ==> InRange(sl.props, e.parsed.value))
    && (e.TypeMax? && e.parsed.Some? ==> InRange(sl.props, e.parsed.value))
    && (rule == AsWritten && e.TrackClickAt? ==> !CoincidentClickAbove(sl.props, sl.drag, e.stepped))
  }

  /** Both stored values inside the range and ordered; the locals mirror the parent while dragging. */
  predicate Ordered(sl: Slider)
  {
    var p, s := sl.props, sl.drag;
    var lo, hi := p.valueMin.GetOr(p.min), p.valueMax.GetOr(p.max);
    && p.min <= p.max
    && InRange(p, lo) && InRange(p, hi) && lo <= hi
    && (s.dragging.None? ==> s.localMin.None? && s.localMax.None?)
    && (s.dragging == Some(MinHandle) ==>
          s.localMax == Some(hi) && s.localMin.Some? && p.min <= s.localMin.value <= hi)
    && (s.dragging == Some(MaxHandle) ==>
          s.localMin == Some(lo) && s.localMax.Some? && lo <= s.localMax.value <= p.max)
  }

  /** What the user sees: both handles inside the range, the min handle never right of the max handle. */
  lemma OrderedHandles(sl: Slider)
    requires Ordered(sl)
    ensures sl.props.min <= EffectiveMin(sl.props, sl.drag) <= EffectiveMax(sl.props, sl.drag) <= sl.props.max
  {
  }

  lemma StepKeepsOrder(rule: ClickRule, sl: Slider, e: Event)
    requires Ordered(sl) && Plausible(rule, sl, e)
    ensures Ordered(Step(rule, sl, e))
  {
    if e.TrackClickAt? {
      match rule
      case AsWritten => TrackClickAsWrittenKeepsOrder(sl.props, sl.drag, e.stepped);
      case Corrected => TrackClickKeepsOrder(sl.props, sl.drag, e.stepped);
    }
  }

  /** The written handler breaks the invariant on the excluded click, which the corrected one admits and survives. */
  lemma StepAsWrittenBreaksOrder()
    ensures var sl := Slider(RangeProps(0, 10, Some(5), Some(5)), Idle);
      && Ordered(sl)
      && !Ordered(Step(AsWritten, sl, TrackClickAt(8)))
      && Plausible(Corrected, sl, TrackClickAt(8))
      && Ordered(Step(Corrected, sl, TrackClickAt(8)))
  {
    var sl := Slider(RangeProps(0, 10, Some(5), Some(5)), Idle);
    assert Step(AsWritten, sl, TrackClickAt(8)).props == RangeProps(0, 10, Some(8), Some(5));
    assert Step(Corrected, sl, TrackClickAt(8)).props == RangeProps(0, 10, Some(5), Some(8));
  }

  function Run(rule: ClickRule, sl: Slider, events: seq<Event>): Slider
    decreases |events|
  {
    if |events| == 0 then sl else Run(rule, Step(rule, sl, events[0]), events[1..])
  }

  predicate PlausibleRun(rule: ClickRule, sl: Slider, events: seq<Event>)
    decreases |events|
  {
    |events| == 0 || (Plausible(rule, sl, events[0]) && PlausibleRun(rule, Step(rule, sl, events[0]), events[1..]))
  }

  /** From an ordered slider, every plausible sequence of events keeps the handles ordered and inside the range. */
  lemma {:induction false} RunKeepsOrder(rule: ClickRule, sl: Slider, events: seq<Event>)
    requires Ordered(sl) && PlausibleRun(rule, sl, events)
    ensures Ordered(Run(rule, sl, events))
    decreases |events|
  {
    if |events| > 0 {
      StepKeepsOrder(rule, sl, events[0]);
      RunKeepsOrder(rule, Step(rule, sl, events[0]), events[1..]);
    }
  }

  /** A fresh slider on a non-empty range satisfies the invariant. */
  lemma FreshSliderOrdered(min: int, max: int)
    requires min <= max
    ensures Ordered(Slider(RangeProps(min, max, None, None), Idle))
  {
  }
}
