// The event builder: calls that open, describe, fill and close elements turn
// into well-nested events (tinfra/xml_builder.cpp).
module XmlBuilder {
  import opened XmlEvents

  datatype Call =
    | StartCall(name: string)
    | AttrCall(attr: Attr)
    | CDataCall(text: string)
    | EndCall
    | ElementCall(name: string, attrs: seq<Attr>)  // start_element

  // ---- what a sequence of calls means ----

  predicate OpensTag(calls: seq<Call>) {
    calls != [] && (calls[|calls| - 1].StartCall? || calls[|calls| - 1].AttrCall?)
  }

  function WithAttr(es: seq<Event>, a: Attr): seq<Event> {
    var n := |es| - 1;
    if n >= 0 && es[n].Start? then es[..n] + [Start(es[n].name, es[n].attrs + [a])] else es
  }

  function Innermost(es: seq<Event>): seq<string> {
    match Nest(Open([]), es)
    case Open(names) => if names == [] then [] else names[|names| - 1..]
    case Broken => []
  }

  function Step(es: seq<Event>, c: Call): seq<Event> {
    match c
    case StartCall(name) => es + [Start(name, [])]
    case AttrCall(a) => WithAttr(es, a)
    case CDataCall(text) => es + [CData(text)]
    case EndCall => if Innermost(es) == [] then es else es + [End(Innermost(es)[0])]
    case ElementCall(name, attrs) => es + [Start(name, attrs)]
  }

  function Meaning(calls: seq<Call>): seq<Event> {
    if calls == [] then [] else Step(Meaning(calls[..|calls| - 1]), calls[|calls| - 1])
  }

  // Attributes follow a start or another attribute, and there is an element
  // to end.
  predicate Legal(calls: seq<Call>) {
    calls == []
    || (var init, last := calls[..|calls| - 1], calls[|calls| - 1];
        Legal(init) && (last.AttrCall? ==> OpensTag(init)) && (last.EndCall? ==> Innermost(Meaning(init)) != []))
  }

  lemma {:induction false} NestAppend(n: Nesting, es: seq<Event>, e: Event)
    ensures Nest(n, es + [e]) == After(Nest(n, es), e)
    decreases |es|
  {
    if es == [] {
      assert ([] + [e])[1..] == [];
    } else {
      assert (es + [e])[1..] == es[1..] + [e];
      NestAppend(After(n, es[0]), es[1..], e);
    }
  }

  lemma {:induction false} OneMore(calls: seq<Call>, c: Call)
    ensures Meaning(calls + [c]) == Step(Meaning(calls), c)
    ensures Legal(calls + [c]) <==>
      Legal(calls) && (c.AttrCall? ==> OpensTag(calls)) && (c.EndCall? ==> Innermost(Meaning(calls)) != [])
    ensures OpensTag(calls + [c]) <==> c.StartCall? || c.AttrCall?
  {
    assert (calls + [c])[..|calls|] == calls;
  }

  // ---- the builder ----

  datatype State = NoContent | TagOpened | InNonEmptyTag

  // The element begun but not yet written.
  function Pending(state: State, tag: string, attrs: seq<Attr>): seq<Event> {
    if state.TagOpened? then [Start(tag, attrs)] else []
  }

  lemma {:induction false} PendingInnermost(out: seq<Event>, stack: seq<string>, state: State, tag: string,
          attrs: seq<Attr>)
    requires Nest(Open([]), out) == Open(stack)
    ensures var es := out + Pending(state, tag, attrs);
      && Nest(Open([]), es) == Open(stack + if state.TagOpened? then [tag] else [])
      && Innermost(es) == if state.TagOpened? then [tag] else if stack == [] then [] else [stack[|stack| - 1]]
  {
    if state.TagOpened? {
      NestAppend(Open([]), out, Start(tag, attrs));
    } else {
      assert out + [] == out && stack + [] == stack;
    }
  }

  class Builder {
    var state: State
    var openedTag: string
    var currentAttrs: seq<Attr>
    var elementStack: seq<string>
    var out: seq<Event>  // written to the output stream
    ghost var calls: seq<Call>

    ghost function Begun(): seq<Event>
      reads this
    {
      Pending(state, openedTag, currentAttrs)
    }

    // What was written is well nested, and with the pending element it is
    // what the calls mean.
    ghost predicate Valid()
      reads this
    {
      && Legal(calls) && Meaning(calls) == out + Begun()
      && Nest(Open([]), out) == Open(elementStack)
      && (state.TagOpened? <==> OpensTag(calls))
      && (!state.TagOpened? ==> currentAttrs == [])
    }

    constructor ()
      ensures Valid() && calls == [] && out == [] && elementStack == [] && !state.TagOpened?
    {
      state := NoContent;
      openedTag, currentAttrs, elementStack, out, calls := "", [], [], [], [];
    }

    // The body of start_element once nothing is pending.
    method Emit(name: string, attrs: seq<Attr>)
      modifies this`state, this`elementStack, this`out
      ensures out == old(out) + [Event.Start(name, attrs)] && elementStack == old(elementStack) + [name]
      ensures state == NoContent
    {
      out := out + [Event.Start(name, attrs)];
      state := NoContent;
      elementStack := elementStack + [name];
    }

    method FlushOpenedTag()
      modifies this`state, this`openedTag, this`currentAttrs, this`elementStack, this`out
      ensures out == old(out + Begun()) && !state.TagOpened?
      ensures elementStack == old(elementStack) + if old(state.TagOpened?) then [old(openedTag)] else []
      ensures currentAttrs == if old(state.TagOpened?) then [] else old(currentAttrs)
    {
      if state.TagOpened? {
        Emit(openedTag, currentAttrs);
        openedTag := "";
        currentAttrs := [];
      }
    }

    method Start(name: string)
      modifies this
      ensures old(Valid()) ==> Valid()
      ensures calls == old(calls) + [StartCall(name)] && state.TagOpened?
      ensures out == old(out + Begun()) && openedTag == name
      ensures elementStack == old(elementStack) + if old(state.TagOpened?) then [old(openedTag)] else []
      ensures currentAttrs == if old(state.TagOpened?) then [] else old(currentAttrs)
    {
      hide Meaning, Legal, OpensTag, Nest;
      OneMore(calls, StartCall(name));
      if Valid() {
        PendingInnermost(out, elementStack, state, openedTag, currentAttrs);
      }
      FlushOpenedTag();
      openedTag := name;
      state := TagOpened;
      calls := calls + [StartCall(name)];
    }

    method Attr(name: string, value: string)
      requires state.TagOpened?
      modifies this`currentAttrs, this`calls
      ensures old(Valid()) ==> Valid()
      ensures calls == old(calls) + [AttrCall(XmlEvents.Attr(name, value))]
      ensures currentAttrs == old(currentAttrs) + [XmlEvents.Attr(name, value)]
    {
      hide Meaning, Legal, OpensTag, Nest;
      var a := XmlEvents.Attr(name, value);
      OneMore(calls, AttrCall(a));
      assert (out + Begun())[..|out|] == out;
      currentAttrs := currentAttrs + [a];
      calls := calls + [AttrCall(a)];
    }

    method StartElement(name: string, attrs: seq<Attr>)
      modifies this
      ensures old(Valid()) ==> Valid()
      ensures calls == old(calls) + [ElementCall(name, attrs)]
      ensures out == old(out + Begun()) + [Event.Start(name, attrs)] && !state.TagOpened?
      ensures elementStack == old(elementStack) + (if old(state.TagOpened?) then [old(openedTag)] else []) + [name]
      ensures currentAttrs == if old(state.TagOpened?) then [] else old(currentAttrs)
    {
      hide Meaning, Legal, OpensTag, Nest;
      OneMore(calls, ElementCall(name, attrs));
      if Valid() {
        PendingInnermost(out, elementStack, state, openedTag, currentAttrs);
      }
      FlushOpenedTag();
      NestAppend(Open([]), out, Event.Start(name, attrs));
      Emit(name, attrs);
      assert out == out + [];
      calls := calls + [ElementCall(name, attrs)];
    }

    // The body of end_element.
    method EmitEnd(name: string)
      requires elementStack != []
      modifies this`out, this`state, this`elementStack
      ensures out == old(out) + [Event.End(name)] && state == InNonEmptyTag
      ensures elementStack == old(elementStack)[..|old(elementStack)| - 1]
    {
      out := out + [Event.End(name)];
      state := InNonEmptyTag;
      elementStack := elementStack[..|elementStack| - 1];
    }

    // end_element does not look whether an element is pending: if one is, it
    // is forgotten, and its attributes stay behind. So what is written is what
    // the calls mean exactly if none is.
    method EndElement(name: string)
      requires elementStack != [] && elementStack[|elementStack| - 1] == name
      modifies this`out, this`state, this`elementStack, this`calls
      ensures old(Valid()) ==> (Valid() <==> !old(state.TagOpened?))
      ensures calls == old(calls) + [EndCall]
      ensures out == old(out) + [Event.End(name)] && state == InNonEmptyTag
      ensures elementStack == old(elementStack)[..|old(elementStack)| - 1]
    {
      hide Meaning, Legal, OpensTag, Nest;
      OneMore(calls, EndCall);
      if Valid() {
        PendingInnermost(out, elementStack, state, openedTag, currentAttrs);
        NestAppend(Open([]), out, Event.End(name));
        assert state.TagOpened? ==> |Meaning(calls + [EndCall])| == |out| + 2;
        assert out + [] == out;
      }
      EmitEnd(name);
      assert out == out + [];
      calls := calls + [EndCall];
    }

    method End()
      requires elementStack != [] || state.TagOpened?
      modifies this
      ensures old(Valid()) ==> Valid()
      ensures calls == old(calls) + [EndCall] && !state.TagOpened?
      ensures var stack := old(elementStack) + if old(state.TagOpened?) then [old(openedTag)] else [];
        elementStack == stack[..|stack| - 1] && out == old(out + Begun()) + [Event.End(stack[|stack| - 1])]
      ensures currentAttrs == if old(state.TagOpened?) then [] else old(currentAttrs)
    {
      hide Meaning, Legal, OpensTag, Nest;
      OneMore(calls, EndCall);
      if Valid() {
        PendingInnermost(out, elementStack, state, openedTag, currentAttrs);
      }
      FlushOpenedTag();
      var name := elementStack[|elementStack| - 1];
      NestAppend(Open([]), out, Event.End(name));
      EmitEnd(name);
      assert out == out + [];
      calls := calls + [EndCall];
    }

    method CData(text: string)
      modifies this
      ensures old(Valid()) ==> Valid()
      ensures calls == old(calls) + [CDataCall(text)] && !state.TagOpened?
      ensures out == old(out + Begun()) + [Event.CData(text)]
      ensures elementStack == old(elementStack) + if old(state.TagOpened?) then [old(openedTag)] else []
      ensures currentAttrs == if old(state.TagOpened?) then [] else old(currentAttrs)
    {
      hide Meaning, Legal, OpensTag, Nest;
      OneMore(calls, CDataCall(text));
      if Valid() {
        PendingInnermost(out, elementStack, state, openedTag, currentAttrs);
      }
      FlushOpenedTag();
      NestAppend(Open([]), out, Event.CData(text));
      out := out + [Event.CData(text)];
      assert out == out + [];
      state := InNonEmptyTag;
      calls := calls + [CDataCall(text)];
    }
  }

  method Perform(b: Builder, c: Call)
    requires b.Valid() && Legal(b.calls + [c])
    modifies b
    ensures b.Valid() && b.calls == old(b.calls) + [c]
  {
    hide Meaning, Legal, Nest, OpensTag, WithAttr;
    OneMore(b.calls, c);
    PendingInnermost(b.out, b.elementStack, b.state, b.openedTag, b.currentAttrs);
    match c
    case StartCall(name) => b.Start(name);
    case AttrCall(a) => b.Attr(a.name, a.value);
    case CDataCall(text) => b.CData(text);
    case EndCall => b.End();
    case ElementCall(name, attrs) => b.StartElement(name, attrs);
  }

  // A program of legal calls.
  method Build(calls: seq<Call>) returns (b: Builder)
    requires Legal(calls)
    ensures fresh(b) && b.Valid() && b.calls == calls
  {
    hide *;
    b := new Builder();
    var i := 0;
    while i < |calls|
      invariant 0 <= i <= |calls| && fresh(b) && b.Valid() && b.calls == calls[..i]
    {
      LegalPrefix(calls, i + 1);
      assert calls[..i + 1] == calls[..i] + [calls[i]];
      Perform(b, calls[i]);
      i := i + 1;
    }
    assert calls[..i] == calls;
  }

  lemma {:induction false} LegalPrefix(calls: seq<Call>, n: nat)
    requires Legal(calls) && n <= |calls|
    ensures Legal(calls[..n])
    decreases |calls|
  {
    if n == |calls| {
      assert calls[..n] == calls;
    } else {
      LegalPrefix(calls[..|calls| - 1], n);
      assert calls[..|calls| - 1][..n] == calls[..n];
    }
  }

  lemma {:induction false} AttrNested(es: seq<Event>, a: Attr)
    requires es != [] && es[|es| - 1].Start?
    ensures Nest(Open([]), WithAttr(es, a)) == Nest(Open([]), es)
    ensures var more := WithAttr(es, a); more != [] && more[|more| - 1].Start?
  {
    var n := |es| - 1;
    assert es == es[..n] + [es[n]];
    NestAppend(Open([]), es[..n], es[n]);
    NestAppend(Open([]), es[..n], Event.Start(es[n].name, es[n].attrs + [a]));
  }

  // Legal calls mean well-nested events.
  lemma {:induction false} MeaningNested(calls: seq<Call>)
    requires Legal(calls)
    ensures Nest(Open([]), Meaning(calls)).Open?
    ensures OpensTag(calls) ==> var es := Meaning(calls); es != [] && es[|es| - 1].Start?
  {
    if calls != [] {
      var init, last := calls[..|calls| - 1], calls[|calls| - 1];
      MeaningNested(init);
      match last
      case AttrCall(a) => AttrNested(Meaning(init), a);
      case EndCall => EndNested(Meaning(init));
      case CDataCall(text) => NestAppend(Open([]), Meaning(init), CData(text));
      case StartCall(name) => NestAppend(Open([]), Meaning(init), Start(name, []));
      case ElementCall(name, attrs) => NestAppend(Open([]), Meaning(init), Start(name, attrs));
    }
  }

  lemma {:induction false} EndNested(es: seq<Event>)
    requires Innermost(es) != []
    ensures Nest(Open([]), es + [End(Innermost(es)[0])]).Open?
  {
    NestAppend(Open([]), es, End(Innermost(es)[0]));
  }

  // close() asserts that the element stack is empty. That makes the document
  // complete exactly when no start or attr came last: an element that is
  // still pending is not on the stack, and is lost.
  lemma {:induction false} CloseExactly(b: Builder)
    requires b.Valid() && b.elementStack == []
    ensures Nest(Open([]), Meaning(b.calls)) == Open([]) <==> !OpensTag(b.calls)
    ensures b.out == Meaning(b.calls) <==> !OpensTag(b.calls)
  {
    PendingInnermost(b.out, b.elementStack, b.state, b.openedTag, b.currentAttrs);
    if !b.state.TagOpened? {
      assert b.out + [] == b.out;
    }
  }

  // So a new builder can be closed right after its first start.
  method ClosedWhilePending(a: string) returns (b: Builder)
    ensures fresh(b) && b.Valid() && b.elementStack == [] && b.out == []
    ensures Nest(Open([]), Meaning(b.calls)) == Open([a])
  {
    hide Meaning, Legal, OpensTag, Nest;
    b := new Builder();
    b.Start(a);
    PendingInnermost(b.out, b.elementStack, b.state, b.openedTag, b.currentAttrs);
  }

  // Ending an element by name while another is pending: the pending element is
  // never written, and the next one gets its attributes.
  method EndElementDropsPending(b: Builder, name: string, next: string)
    requires b.Valid() && b.state.TagOpened?
    requires b.elementStack != [] && b.elementStack[|b.elementStack| - 1] == name
    modifies b
    ensures b.out == old(b.out) + [End(name), Start(next, old(b.currentAttrs)), End(next)]
    ensures b.elementStack == old(b.elementStack)[..|old(b.elementStack)| - 1]
    ensures Meaning(b.calls) == old(b.out)
      + [Start(old(b.openedTag), old(b.currentAttrs)), End(old(b.openedTag)), Start(next, []), End(next)]
  {
    hide Meaning, Legal, OpensTag, Nest;
    MeaningOfThree(b.calls, b.out, b.elementStack, b.openedTag, b.currentAttrs, next);
    b.EndElement(name);
    b.Start(next);
    b.End();
  }

  lemma {:induction false} MeaningOfThree(calls: seq<Call>, out: seq<Event>, stack: seq<string>, tag: string,
          attrs: seq<Attr>, next: string)
    requires Nest(Open([]), out) == Open(stack) && Meaning(calls) == out + [Start(tag, attrs)]
    ensures Meaning(calls + [EndCall] + [StartCall(next)] + [EndCall])
      == out + [Start(tag, attrs), End(tag), Start(next, []), End(next)]
  {
    hide Meaning, Legal, OpensTag, Nest;
    var es := out + [Start(tag, attrs)];
    OneMore(calls, EndCall);
    OneMore(calls + [EndCall], StartCall(next));
    OneMore(calls + [EndCall] + [StartCall(next)], EndCall);
    PendingInnermost(out, stack, TagOpened, tag, attrs);
    NestAppend(Open([]), es, End(tag));
    PendingInnermost(es + [End(tag)], stack, TagOpened, next, []);
  }
}
