/**
 * `SingleSlider`: a one-handle slider over `[min, max]` where, with
 * `nullAtMax`, the maximum means "no limit" and is reported as null.
 */
module SingleSlider {
  import opened Options
  import RangeSlider

  datatype SliderProps = SliderProps(min: int, max: int, value: Option<int>, nullAtMax: bool)

  datatype DragState = DragState(dragging: bool, localValue: Option<int>)

  const Idle := DragState(false, None)

  /** `effectiveValue`: the local value while dragging (if set), else `value ?? max`. */
  function EffectiveValue(p: SliderProps, s: DragState): (r: int)
    ensures s.dragging && s.localValue.Some? ==> r == s.localValue.value
    ensures !(s.dragging && s.localValue.Some?) ==> r == p.value.GetOr(p.max)
  {
    if s.dragging && s.localValue.Some? then s.localValue.value else p.value.GetOr(p.max)
  }

  /** The value reported to the parent: null for the maximum when `nullAtMax`. */
  function Commit(p: SliderProps, v: int): (r: Option<int>)
    ensures r.None? <==> p.nullAtMax && v == p.max
    ensures r.Some? ==> r.value == v
  {
    if p.nullAtMax && v == p.max then None else Some(v)
  }

  /** `handleTrackClick`: report the clamped value. */
  function TrackClick(p: SliderProps, stepped: int): (r: Option<int>)
    ensures var v := RangeSlider.ValueFromPercent(p.min, p.max, stepped);
      r == Commit(p, v)
    ensures p.min <= p.max && r.Some? ==> p.min <= r.value <= p.max
  {
    Commit(p, RangeSlider.ValueFromPercent(p.min, p.max, stepped))
  }

  /** Pressing the handle: the local value starts at `value ?? max`. */
  function MouseDown(p: SliderProps): (r: DragState)
    ensures r.dragging && r.localValue == Some(p.value.GetOr(p.max))
    ensures EffectiveValue(p, r) == EffectiveValue(p, Idle)
  {
    DragState(true, Some(p.value.GetOr(p.max)))
  }

  /** `handleMouseMove`: the local value follows the pointer, clamped; nothing happens when not dragging. */
  function MouseMove(p: SliderProps, s: DragState, stepped: int): (r: DragState)
    ensures !s.dragging ==> r == s
    ensures s.dragging ==> r == s.(localValue := Some(RangeSlider.ValueFromPercent(p.min, p.max, stepped)))
  {
    if s.dragging then s.(localValue := Some(RangeSlider.ValueFromPercent(p.min, p.max, stepped))) else s
  }

  /**
   * `handleMouseUp`: report the local value if there is one; always end the
   * drag and forget the local value. The outer option is whether `onChange` is called.
   */
  function MouseUp(p: SliderProps, s: DragState): (r: (DragState, Option<Option<int>>))
    ensures r.0 == Idle
    ensures r.1.Some? <==> s.localValue.Some?
    ensures r.1.Some? ==> r.1.value == Commit(p, s.localValue.value)
  {
    (Idle, if s.localValue.Some? then Some(Commit(p, s.localValue.value)) else None)
  }

  /** The caption reads "Any" exactly when `nullAtMax` and the handle is at the maximum. */
  function ShowsAny(p: SliderProps, s: DragState): (r: bool)
    ensures !p.nullAtMax ==> !r
    ensures !s.dragging ==> (r <==> p.nullAtMax && (p.value.None? || p.value == Some(p.max)))
  {
    p.nullAtMax && EffectiveValue(p, s) == p.max
  }

  /** A stored null is drawn at the maximum, so with `nullAtMax` it reads "Any". */
  lemma NullReadsAny(p: SliderProps)
    requires p.value.None? && p.nullAtMax
    ensures ShowsAny(p, Idle)
  {
  }

  /**
   * Committing a value and storing it in the parent draws the handle where it
   * was released: null stands for the maximum.
   */
  lemma CommitRoundTrip(p: SliderProps, v: int)
    ensures EffectiveValue(p.(value := Commit(p, v)), Idle) == v
    ensures ShowsAny(p.(value := Commit(p, v)), Idle) <==> p.nullAtMax && v == p.max
  {
  }

  /** A full drag (press, moves, release) reports the clamped position of the last move. */
  lemma DragReportsLastMove(p: SliderProps, moves: seq<int>)
    requires |moves| > 0 && p.min <= p.max
    ensures var r := MouseUp(p, MovesFrom(p, MouseDown(p), moves));
      && r.1.Some?
      && var v := RangeSlider.ValueFromPercent(p.min, p.max, moves[|moves| - 1]);
         r.1.value == Commit(p, v) && p.min <= v <= p.max
  {
    MovesLast(p, MouseDown(p), moves);
  }

  function MovesFrom(p: SliderProps, s: DragState, moves: seq<int>): DragState
    decreases |moves|
  {
    if |moves| == 0 then s else MovesFrom(p, MouseMove(p, s, moves[0]), moves[1..])
  }

  lemma {:induction false} MovesLast(p: SliderProps, s: DragState, moves: seq<int>)
    requires s.dragging && |moves| > 0
    ensures MovesFrom(p, s, moves) == s.(localValue := Some(RangeSlider.ValueFromPercent(p.min, p.max, moves[|moves| - 1])))
    decreases |moves|
  {
    if |moves| > 1 {
      MovesLast(p, MouseMove(p, s, moves[0]), moves[1..]);
      assert moves[1..][|moves[1..]| - 1] == moves[|moves| - 1];
    }
  }
}
