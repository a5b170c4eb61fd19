/**
 * The toast notifications of the user interface: `toast` appends a notification under an
 * id, `dismiss` removes every notification with a given id, and closing a notification
 * dismisses it by its own id.
 */
module Toasts {
  import opened Wrappers
  import opened Seqs

  datatype Variant = Default | Destructive

  /** The properties a notification is shown with; every stored notification has an id. */
  datatype ToastProps = ToastProps(id: Option<string>, title: Option<string>, description: Option<string>, variant: Option<Variant>)

  /** The id a new notification gets: its own when that is non-empty, else the generated one. */
  function IdFor(props: ToastProps, generated: string): (id: string)
    ensures props.id.Some? && props.id.value != "" ==> id == props.id.value
    ensures props.id.None? || props.id.value == "" ==> id == generated
  {
    if props.id.Some? && props.id.value != "" then props.id.value else generated
  }

  function Other(id: Option<string>): ToastProps -> bool {
    (t: ToastProps) => t.id != id
  }

  /** `toasts.filter((t) => t.id !== id)`. */
  function Without(toasts: seq<ToastProps>, id: Option<string>): (r: seq<ToastProps>)
    ensures |r| <= |toasts|
    ensures forall k :: 0 <= k < |r| ==> r[k].id != id && r[k] in toasts
  {
    Filter(toasts, Other(id))
  }

  /** Dismissing keeps every other notification, in order, and an absent id changes nothing. */
  lemma WithoutKeepsOthers(toasts: seq<ToastProps>, id: Option<string>)
    ensures IsSubsequence(Without(toasts, id), toasts)
    ensures forall t :: t in toasts && t.id != id ==> t in Without(toasts, id)
    ensures (forall k :: 0 <= k < |toasts| ==> toasts[k].id != id) ==> Without(toasts, id) == toasts
  {
    FilterIsSubsequence(toasts, Other(id));
    forall t | t in toasts && t.id != id
      ensures t in Without(toasts, id)
    {
      FilterKeepsPassing(toasts, Other(id), t);
    }
    FilterKeepsAllWhen(toasts, Other(id));
  }

  /** Showing a notification under an id no other one has, then dismissing that id, restores the list. */
  lemma ToastThenDismiss(toasts: seq<ToastProps>, props: ToastProps, id: string)
    requires forall k :: 0 <= k < |toasts| ==> toasts[k].id != Some(id)
    ensures Without(toasts + [props.(id := Some(id))], Some(id)) == toasts
  {
    FilterAppend(toasts, [props.(id := Some(id))], Other(Some(id)));
    FilterKeepsAll(toasts, Other(Some(id)));
    assert Filter([props.(id := Some(id))], Other(Some(id))) == [] + Filter([], Other(Some(id)));
  }

  /** Dismissing twice is dismissing once. */
  lemma DismissIdempotent(toasts: seq<ToastProps>, id: Option<string>)
    ensures Without(Without(toasts, id), id) == Without(toasts, id)
  {
    var once := Without(toasts, id);
    FilterKeepsAll(once, Other(id));
  }

  /** `Toaster`: the `toasts` state and the two callbacks that replace it. */
  class Toaster {
    var toasts: seq<ToastProps>

    constructor()
      ensures toasts == []
    {
      toasts := [];
    }

    /** `toast(props)`; `generated` is `Math.random().toString()`. */
    method Toast(props: ToastProps, generated: string) returns (id: string)
      modifies this
      ensures id == IdFor(props, generated)
      ensures toasts == old(toasts) + [props.(id := Some(id))]
    {
      id := IdFor(props, generated);
      toasts := toasts + [props.(id := Some(id))];
    }

    /** `dismiss(id)`. */
    method Dismiss(id: Option<string>)
      modifies this
      ensures toasts == Without(old(toasts), id)
    {
      toasts := Without(toasts, id);
    }

    /** `onOpenChange(open)` of the notification at `index`: closing it dismisses its id. */
    method OpenChange(index: nat, open: bool)
      requires index < |toasts|
      modifies this
      ensures open ==> toasts == old(toasts)
      ensures !open ==> toasts == Without(old(toasts), old(toasts)[index].id)
      ensures !open ==> forall k :: 0 <= k < |toasts| ==> toasts[k].id != old(toasts)[index].id
    {
      if !open {
        Dismiss(toasts[index].id);
      }
    }
  }
}
