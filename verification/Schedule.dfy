/** The schedule signal (internal/scheduler/heuristic.go), with each window's local time given. */
module Schedule {
  import opened Bags

  datatype Window = Window(days: seq<string>, fromMinute: int, toMinute: int, base: int)

  datatype LocalTime = LocalTime(day: string, minute: int)

  /** Within the half-open minute range on a listed day; a window whose zone does not load never is. */
  predicate Active(w: Window, local: Option<LocalTime>)
  {
    local.Some? && local.value.day in w.days && w.fromMinute <= local.value.minute < w.toMinute
  }

  /** The largest base of an active window, or zero. */
  method ScheduleBase(windows: seq<Window>, locals: seq<Option<LocalTime>>) returns (best: int)
    requires |locals| == |windows|
    ensures best >= 0
    ensures forall i ::
      && 0 <= i < |windows| && locals[i].Some? && locals[i].value.day in windows[i].days
      && windows[i].fromMinute <= locals[i].value.minute < windows[i].toMinute
      ==> windows[i].base <= best
    ensures best != 0 ==> exists i ::
      && 0 <= i < |windows| && locals[i].Some? && locals[i].value.day in windows[i].days
      && windows[i].fromMinute <= locals[i].value.minute < windows[i].toMinute && windows[i].base == best
  {
    best := 0;
    for i := 0 to |windows|
      invariant best >= 0
      invariant forall k :: 0 <= k < i && Active(windows[k], locals[k]) ==> windows[k].base <= best
      invariant best == 0 || exists k :: 0 <= k < i && Active(windows[k], locals[k]) && windows[k].base == best
    {
      if locals[i].None? { continue; }
      var listed := ContainsDay(windows[i].days, locals[i].value.day);
      if !listed { continue; }
      if windows[i].fromMinute <= locals[i].value.minute < windows[i].toMinute {
        if windows[i].base > best {
          best := windows[i].base;
        }
      }
    }
  }

  method ContainsDay(days: seq<string>, today: string) returns (found: bool)
    ensures found <==> today in days
  {
    for i := 0 to |days|
      invariant today !in days[..i]
    {
      if days[i] == today { return true; }
    }
    return false;
  }
}
