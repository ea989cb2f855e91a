/** The view's element context (`gmathml_view_push_element`,
    `gmathml_view_pop_element` and the stack handling of
    `gmathml_view_render`): a list of the elements being processed, most
    recent first, and the current element every measurement consults. The
    element type is a parameter: the stack never looks inside an element. */
module ElementStacks {
  import opened Wrappers

  datatype ElementStack<E> = ElementStack(elements: seq<E>, current: Option<E>)

  /** The state `gmathml_view_render` starts from. */
  function Empty<E>(): ElementStack<E>
  {
    ElementStack([], None)
  }

  /** The current element is the head of the list, or null when the list is
      empty. */
  ghost predicate Consistent<E>(st: ElementStack<E>)
  {
    st.current == if |st.elements| > 0 then Some(st.elements[0]) else None
  }

  /** `g_slist_remove`: drop the first link that holds `x`, if any. */
  function RemoveFirst<E(==)>(s: seq<E>, x: E): (r: seq<E>)
    ensures x !in s ==> r == s
    ensures x in s ==> |r| == |s| - 1
    ensures |s| > 0 && s[0] == x ==> r == s[1..]
  {
    if |s| == 0 then []
    else if s[0] == x then s[1..]
    else [s[0]] + RemoveFirst(s[1..], x)
  }

  /** `gmathml_view_push_element`: a null element is refused and changes
      nothing; otherwise it is prepended and becomes current. */
  function Push<E(==)>(st: ElementStack<E>, e: Option<E>): (r: ElementStack<E>)
    ensures e.None? ==> r == st
    ensures e.Some? ==> r.elements == [e.value] + st.elements && r.current == e
    ensures e.Some? ==> Consistent(r)
  {
    match e
    case None => st
    case Some(x) => ElementStack([x] + st.elements, Some(x))
  }

  /** `gmathml_view_pop_element`: popping an empty list is refused and
      changes nothing; otherwise the head is removed and the new head, or
      null, becomes current. */
  function Pop<E(==)>(st: ElementStack<E>): (r: ElementStack<E>)
    ensures |st.elements| == 0 ==> r == st
    ensures |st.elements| > 0 ==> r.elements == st.elements[1..] && Consistent(r)
  {
    if |st.elements| == 0 then st
    else
      var rest := RemoveFirst(st.elements, st.elements[0]);
      ElementStack(rest, if |rest| > 0 then Some(rest[0]) else None)
  }

  /** Popping what was just pushed restores a consistent context. */
  lemma PushThenPopRestores<E>(st: ElementStack<E>, e: E)
    requires Consistent(st)
    ensures Pop(Push(st, Some(e))) == st
  {
    assert ([e] + st.elements)[1..] == st.elements;
  }

  /** The push and pop calls made while the element tree is walked, in
      order. */
  datatype StackOp<E> = PushOp(element: Option<E>) | PopOp

  function Step<E(==)>(st: ElementStack<E>, op: StackOp<E>): ElementStack<E>
  {
    match op
    case PushOp(e) => Push(st, e)
    case PopOp => Pop(st)
  }

  /** The context after a sequence of calls; a consistent context stays
      consistent. */
  function Run<E(==)>(st: ElementStack<E>, ops: seq<StackOp<E>>): (r: ElementStack<E>)
    ensures Consistent(st) ==> Consistent(r)
    decreases |ops|
  {
    if |ops| == 0 then st
    else Step(Run(st, ops[..|ops| - 1]), ops[|ops| - 1])
  }

  /** Pushes of real elements minus pops: the nesting depth a call sequence
      ends at. */
  function Depth<E>(ops: seq<StackOp<E>>): int
  {
    if |ops| == 0 then 0
    else
      var d := Depth(ops[..|ops| - 1]);
      match ops[|ops| - 1]
      case PushOp(e) => if e.Some? then d + 1 else d
      case PopOp => d - 1
  }

  /** No prefix of the calls pops more than it pushed. */
  predicate NeverBelow<E>(ops: seq<StackOp<E>>)
  {
    |ops| == 0 || (NeverBelow(ops[..|ops| - 1]) && Depth(ops) >= 0)
  }

  /** Properly nested calls: never below the start, and back to it at the
      end. */
  predicate WellNested<E>(ops: seq<StackOp<E>>)
  {
    NeverBelow(ops) && Depth(ops) == 0
  }

  /** Calls that never pop below their start leave the starting list intact
      underneath exactly `Depth(ops)` new elements. */
  lemma {:induction false} RunKeepsBase<E>(st: ElementStack<E>, ops: seq<StackOp<E>>)
    requires NeverBelow(ops)
    ensures Depth(ops) >= 0
    ensures |Run(st, ops).elements| == |st.elements| + Depth(ops)
    ensures Run(st, ops).elements[Depth(ops)..] == st.elements
    decreases |ops|
  {
    if |ops| > 0 {
      var prefix := ops[..|ops| - 1];
      var last := ops[|ops| - 1];
      RunKeepsBase(st, prefix);
      var before := Run(st, prefix);
      var d := Depth(prefix);
      assert Run(st, ops) == Step(before, last);
      assert Depth(ops) == match last
                           case PushOp(e) => if e.Some? then d + 1 else d
                           case PopOp => d - 1;
      match last
      case PushOp(e) =>
        if e.Some? {
          assert ([e.value] + before.elements)[d + 1..] == before.elements[d..];
        }
      case PopOp =>
        assert before.elements[1..][d - 1..] == before.elements[d..];
    }
  }

  /** Whether a call is refused by its guard, which logs a critical
      message and returns: a null push, or a pop of an empty list. */
  predicate Refused<E>(st: ElementStack<E>, op: StackOp<E>)
  {
    match op
    case PushOp(e) => e.None?
    case PopOp => |st.elements| == 0
  }

  /** The number of calls of a sequence that are refused, each judged
      against the context it meets. */
  function Refusals<E(==)>(st: ElementStack<E>, ops: seq<StackOp<E>>): nat
    decreases |ops|
  {
    if |ops| == 0 then 0
    else
      var prefix := ops[..|ops| - 1];
      Refusals(st, prefix) + if Refused(Run(st, prefix), ops[|ops| - 1]) then 1 else 0
  }

  /** No call of the sequence pushes a null element. */
  predicate NoNullPushes<E>(ops: seq<StackOp<E>>)
  {
    forall i :: 0 <= i < |ops| ==> !(ops[i].PushOp? && ops[i].element.None?)
  }

  /** Every refused call is accounted for: the list is never longer than
      the start plus the depth plus the refused calls, since a refused pop
      lowers the depth but not the list. */
  lemma {:induction false} RefusalsAccountForLength<E>(st: ElementStack<E>, ops: seq<StackOp<E>>)
    ensures |Run(st, ops).elements| <= |st.elements| + Depth(ops) + Refusals(st, ops)
    decreases |ops|
  {
    if |ops| > 0 {
      RefusalsAccountForLength(st, ops[..|ops| - 1]);
    }
  }

  /** Calls that never pop below their start and push no null element are
      never refused. */
  lemma {:induction false} NestedCallsAreNeverRefused<E>(st: ElementStack<E>, ops: seq<StackOp<E>>)
    requires NeverBelow(ops) && NoNullPushes(ops)
    ensures Refusals(st, ops) == 0
    decreases |ops|
  {
    if |ops| > 0 {
      var prefix := ops[..|ops| - 1];
      assert NoNullPushes(prefix) by {
        forall i | 0 <= i < |prefix| ensures !(prefix[i].PushOp? && prefix[i].element.None?) {
          assert prefix[i] == ops[i];
        }
      }
      NestedCallsAreNeverRefused(st, prefix);
      RunKeepsBase(st, prefix);
      assert !(ops[|ops| - 1].PushOp? && ops[|ops| - 1].element.None?);
    }
  }

  /** A walk from the empty context that ends below its start pops more
      than it pushed, so at least one of its pops is refused. */
  lemma OverPoppingIsRefused<E>(ops: seq<StackOp<E>>)
    requires Depth(ops) < 0
    ensures Refusals(Empty(), ops) >= -Depth(ops)
  {
    RefusalsAccountForLength(Empty(), ops);
  }

  /** Properly nested calls give back the context they started from. */
  lemma WellNestedRunRestores<E>(st: ElementStack<E>, ops: seq<StackOp<E>>)
    requires Consistent(st) && WellNested(ops)
    ensures Run(st, ops) == st
  {
    RunKeepsBase(st, ops);
    assert Run(st, ops).elements == st.elements;
  }

  /** The stack handling of a render: what the walk left behind, whether
      the dangling-elements warning was issued, and how many push and pop
      calls of the walk were refused with a critical message. */
  datatype RenderOutcome<E> = RenderOutcome(stack: ElementStack<E>, danglingWarning: bool, refusedCalls: nat)

  /** `gmathml_view_render` around the tree walk: the context is reset
      before the walk; afterwards a non-empty list draws the warning and is
      emptied. The current element is left as the walk left it. */
  function Render<E(==)>(st: ElementStack<E>, walk: seq<StackOp<E>>): (r: RenderOutcome<E>)
    ensures r.stack.elements == []
    ensures r.danglingWarning <==> Run(Empty(), walk).elements != []
    ensures r.stack.current == Run(Empty(), walk).current
    ensures r.refusedCalls == Refusals(Empty(), walk)
  {
    var after := Run(Empty(), walk);
    var refused := Refusals(Empty(), walk);
    if after.elements != [] then RenderOutcome(after.(elements := []), true, refused)
    else RenderOutcome(after, false, refused)
  }

  /** What the view held before a render does not affect it. */
  lemma RenderIgnoresPriorContext<E>(st1: ElementStack<E>, st2: ElementStack<E>, walk: seq<StackOp<E>>)
    ensures Render(st1, walk) == Render(st2, walk)
  {
  }

  /** A properly nested walk ends a render with an empty, consistent
      context and no warning. */
  lemma WellNestedRenderIsClean<E>(st: ElementStack<E>, walk: seq<StackOp<E>>)
    requires WellNested(walk)
    ensures !Render(st, walk).danglingWarning
    ensures Render(st, walk).stack == Empty()
  {
    WellNestedRunRestores(Empty(), walk);
  }

  /** A properly nested walk without null pushes draws no critical message;
      a walk that pops more than it pushes draws at least one per surplus
      pop, even when it leaves no element behind. */
  lemma RenderReportsRefusedCalls<E>(st: ElementStack<E>, walk: seq<StackOp<E>>)
    ensures NeverBelow(walk) && NoNullPushes(walk) ==> Render(st, walk).refusedCalls == 0
    ensures Depth(walk) < 0 ==> Render(st, walk).refusedCalls >= -Depth(walk)
  {
    if NeverBelow(walk) && NoNullPushes(walk) {
      NestedCallsAreNeverRefused(Empty(), walk);
    }
    if Depth(walk) < 0 {
      OverPoppingIsRefused(walk);
    }
  }

  /** A walk that leaves elements pushed draws the warning; the list is
      emptied but the current element still names the last one pushed, so
      the context is left inconsistent until the next render resets it. */
  lemma DanglingRenderLeavesStaleCurrent<E>(st: ElementStack<E>, walk: seq<StackOp<E>>)
    requires Run(Empty(), walk).elements != []
    ensures Render(st, walk).danglingWarning
    ensures Render(st, walk).stack.elements == []
    ensures Render(st, walk).stack.current.Some?
    ensures !Consistent(Render(st, walk).stack)
  {
    assert Consistent(Empty<E>());
  }
}
