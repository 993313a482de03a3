/** Toast notifications (components/ui/toast-notification.tsx): the `useToast` list with
    `addToast`, `removeToast` and the typed shortcuts, and the auto-dismiss rule of a
    single toast. Ids are built from the clock and a random number in the source; here the
    caller supplies them. */
module ToastNotification {
  import opened Text

  datatype ToastType = Success | Error | Info | Warning

  /** A duration in milliseconds, or `Infinity`. */
  datatype Duration = Millis(ms: int) | Forever

  datatype Toast = Toast(id: string, message: string, kind: ToastType, duration: Option<Duration>)

  /** The hook's initial list. */
  const Empty: seq<Toast> := []

  /** The ids present in a list. */
  function Ids(toasts: seq<Toast>): set<string>
  {
    set t | t in toasts :: t.id
  }

  /** `addToast(message, type = "info", duration = 4000)`: the new toast goes at the end
      and its id is returned. */
  function AddToast(toasts: seq<Toast>, id: string, message: string,
                    kind: Option<ToastType>, duration: Option<Duration>): (r: (seq<Toast>, string))
    ensures |r.0| == |toasts| + 1
    ensures r.0[..|toasts|] == toasts
    ensures r.0[|toasts|] == Toast(id, message, kind.GetOr(Info), Some(duration.GetOr(Millis(4000))))
    ensures r.1 == id
  {
    (toasts + [Toast(id, message, kind.GetOr(Info), Some(duration.GetOr(Millis(4000))))], id)
  }

  /** The typed shortcuts pass their own type and the default duration. */
  function SuccessToast(toasts: seq<Toast>, id: string, message: string): (r: (seq<Toast>, string))
    ensures AppendsTyped(toasts, r, id, message, Success)
  {
    AddToast(toasts, id, message, Some(Success), None)
  }

  function ErrorToast(toasts: seq<Toast>, id: string, message: string): (r: (seq<Toast>, string))
    ensures AppendsTyped(toasts, r, id, message, Error)
  {
    AddToast(toasts, id, message, Some(Error), None)
  }

  function InfoToast(toasts: seq<Toast>, id: string, message: string): (r: (seq<Toast>, string))
    ensures AppendsTyped(toasts, r, id, message, Info)
  {
    AddToast(toasts, id, message, Some(Info), None)
  }

  function WarningToast(toasts: seq<Toast>, id: string, message: string): (r: (seq<Toast>, string))
    ensures AppendsTyped(toasts, r, id, message, Warning)
  {
    AddToast(toasts, id, message, Some(Warning), None)
  }

  /** A shortcut's result: one toast of the given type appended after the unchanged list,
      with the given message and id, lasting 4000 ms, and its id returned. */
  predicate AppendsTyped(toasts: seq<Toast>, r: (seq<Toast>, string), id: string, message: string,
                         kind: ToastType)
  {
    && |r.0| == |toasts| + 1
    && r.0[..|toasts|] == toasts
    && r.0[|toasts|] == Toast(id, message, kind, Some(Millis(4000)))
    && r.1 == id
  }

  /** Each shortcut appends a toast of its own type lasting 4000 ms and keeps the earlier
      toasts; `info` is the same as `addToast` with no type. */
  lemma ShortcutsTyped(toasts: seq<Toast>, id: string, message: string)
    ensures AppendsTyped(toasts, SuccessToast(toasts, id, message), id, message, Success)
    ensures AppendsTyped(toasts, ErrorToast(toasts, id, message), id, message, Error)
    ensures AppendsTyped(toasts, WarningToast(toasts, id, message), id, message, Warning)
    ensures AppendsTyped(toasts, InfoToast(toasts, id, message), id, message, Info)
    ensures InfoToast(toasts, id, message) == AddToast(toasts, id, message, None, None)
  {
  }

  /** `removeToast(id)`: keep the toasts with a different id. */
  function RemoveToast(toasts: seq<Toast>, id: string): (r: seq<Toast>)
    ensures forall t :: t in r <==> t in toasts && t.id != id
    ensures |r| <= |toasts|
    ensures id !in Ids(toasts) ==> r == toasts
  {
    if |toasts| == 0 then []
    else
      var rest := RemoveToast(toasts[1..], id);
      assert toasts == [toasts[0]] + toasts[1..];
      if toasts[0].id == id then rest else [toasts[0]] + rest
  }

  /** Removal distributes over concatenation: together with the one-element case this says
      the kept toasts stay in their original order. */
  lemma {:induction false} RemoveAppend(a: seq<Toast>, b: seq<Toast>, id: string)
    ensures RemoveToast(a + b, id) == RemoveToast(a, id) + RemoveToast(b, id)
  {
    if |a| > 0 {
      assert (a + b)[1..] == a[1..] + b;
      RemoveAppend(a[1..], b, id);
    } else {
      assert a + b == b;
    }
  }

  lemma RemoveOne(t: Toast, id: string)
    ensures RemoveToast([t], id) == if t.id == id then [] else [t]
  {
  }

  /** Removing twice is removing once. */
  lemma RemoveIdempotent(toasts: seq<Toast>, id: string)
    ensures RemoveToast(RemoveToast(toasts, id), id) == RemoveToast(toasts, id)
  {
    var r := RemoveToast(toasts, id);
    assert id !in Ids(r);
  }

  /** Adding a toast under a fresh id and removing that id gives back the list. */
  lemma AddThenRemove(toasts: seq<Toast>, id: string, message: string,
                      kind: Option<ToastType>, duration: Option<Duration>)
    requires id !in Ids(toasts)
    ensures RemoveToast(AddToast(toasts, id, message, kind, duration).0, id) == toasts
  {
    var added := AddToast(toasts, id, message, kind, duration).0;
    assert added == toasts + [added[|toasts|]];
    RemoveAppend(toasts, [added[|toasts|]], id);
  }

  /** The auto-dismiss rule: no timer for `Infinity`; otherwise the timer's delay is the
      duration, with 0 and a missing duration falling back to 4000. */
  function DismissDelay(t: Toast): (r: Option<int>)
    ensures r.None? <==> t.duration == Some(Forever)
    ensures r.Some? ==> r.value != 0
    ensures t.duration == Some(Millis(0)) || t.duration.None? ==> r == Some(4000)
    ensures forall n :: n != 0 && t.duration == Some(Millis(n)) ==> r == Some(n)
  {
    match t.duration
    case Some(Forever) => None
    case Some(Millis(n)) => Some(if n == 0 then 4000 else n)
    case None => Some(4000)
  }

  /** A toast added with the defaults is dismissed after 4000 ms. */
  lemma DefaultDismiss(toasts: seq<Toast>, id: string, message: string)
    ensures DismissDelay(AddToast(toasts, id, message, None, None).0[|toasts|]) == Some(4000)
  {
  }

  /** For every duration argument of `addToast`: the new toast is never kept forever
      unless `Infinity` was passed, a positive or negative count of milliseconds is used as
      given, and leaving the argument out behaves exactly like passing 4000 or 0. */
  lemma AddedDismiss(toasts: seq<Toast>, id: string, message: string,
                     kind: Option<ToastType>, duration: Option<Duration>)
    ensures var t := AddToast(toasts, id, message, kind, duration).0[|toasts|];
      && (DismissDelay(t).None? <==> duration == Some(Forever))
      && (duration.Some? && duration.value.Millis? && duration.value.ms != 0 ==>
            DismissDelay(t) == Some(duration.value.ms))
      && (duration.None? || duration == Some(Millis(0)) ==> DismissDelay(t) == Some(4000))
    ensures DismissDelay(AddToast(toasts, id, message, kind, None).0[|toasts|])
         == DismissDelay(AddToast(toasts, id, message, kind, Some(Millis(4000))).0[|toasts|])
         == DismissDelay(AddToast(toasts, id, message, kind, Some(Millis(0))).0[|toasts|])
  {
  }
}
