/** `HTMLValidator`: a stack of open tags and the set of every tag seen,
    driven by the start- and end-tag events of an HTML tokenizer. The state
    is never reset, so it accumulates across every fragment fed to one
    validator. */
module HtmlValidator {
  import opened Wrappers
  import opened Text

  /** An attribute as the tokenizer reports it; a bare attribute has no
      value. */
  datatype Attribute = Attribute(name: string, value: Option<string>)

  /** Tag events with lower-case tag names, as `HTMLParser` delivers them. */
  datatype TagEvent =
    | Start(name: string, attrs: seq<Attribute>)
    | End(name: string)

  /** `tags` is the stack of open tags (top last), `found` every tag name
      ever started. */
  datatype Validator = Validator(tags: seq<string>, found: set<string>)

  datatype Validation = Validation(isBalanced: bool, hasRequiredTags: bool)

  const RequiredTags: set<string> := {"article", "h1", "p"}
  const SelfClosingTags: set<string> := {"img", "br", "hr"}

  const Fresh: Validator := Validator([], {})

  /** `dict(attrs).get(name)`: the last binding of the attribute wins. */
  function LookupAttr(attrs: seq<Attribute>, name: string): Option<Option<string>>
  {
    if |attrs| == 0 then None
    else if attrs[|attrs| - 1].name == name then Some(attrs[|attrs| - 1].value)
    else LookupAttr(attrs[..|attrs| - 1], name)
  }

  /** `handle_starttag`: record the tag, then push it unless it is
      self-closing. The `img` attribute check sits after the self-closing
      return, and `img` is self-closing, so it is never reached. */
  function HandleStartTag(v: Validator, tag: string, attrs: seq<Attribute>): (r: Result<Validator, string>)
    ensures r.Ok?
    ensures r.value.found == v.found + {tag}
    ensures tag in SelfClosingTags ==> r.value.tags == v.tags
    ensures tag !in SelfClosingTags ==> r.value.tags == v.tags + [tag]
  {
    var found := v.found + {tag};
    if tag in SelfClosingTags then Ok(Validator(v.tags, found))
    else
      var pushed := Validator(v.tags + [tag], found);
      if tag == "img" then
        match (LookupAttr(attrs, "src"), LookupAttr(attrs, "alt"))
        case (Some(_), Some(Some(alt))) => if |Strip(alt)| == 0 then Err("Atrybut alt nie może być pusty") else Ok(pushed)
        case (Some(_), Some(None)) => Err("'NoneType' object has no attribute 'strip'")
        case _ => Err("Tag img musi mieć atrybuty src i alt")
      else Ok(pushed)
  }

  /** Index of the topmost occurrence of `tag` in `stack`. */
  function LastIndexOf(stack: seq<string>, tag: string): (r: Option<nat>)
    ensures r.Some? ==> r.value < |stack| && stack[r.value] == tag
    ensures r.Some? ==> forall j :: r.value < j < |stack| ==> stack[j] != tag
    ensures r.None? <==> tag !in stack
  {
    if |stack| == 0 then None
    else if stack[|stack| - 1] == tag then Some(|stack| - 1)
    else LastIndexOf(stack[..|stack| - 1], tag)
  }

  /** `handle_endtag`: ignore self-closing tags and tags that are not open;
      otherwise remove the topmost open occurrence, wherever it sits. */
  function HandleEndTag(v: Validator, tag: string): (r: Validator)
    ensures r.found == v.found
    ensures tag in SelfClosingTags || tag !in v.tags ==> r.tags == v.tags
    ensures tag !in SelfClosingTags && tag in v.tags ==>
      exists k :: (0 <= k < |v.tags| && v.tags[k] == tag && tag !in v.tags[k + 1..]
                   && r.tags == v.tags[..k] + v.tags[k + 1..])
    ensures tag !in SelfClosingTags ==> multiset(r.tags) == multiset(v.tags) - multiset{tag}
  {
    if tag in SelfClosingTags then v
    else
      match LastIndexOf(v.tags, tag)
      case None => v
      case Some(k) =>
        assert v.tags == v.tags[..k] + [tag] + v.tags[k + 1..];
        Validator(v.tags[..k] + v.tags[k + 1..], v.found)
  }

  /** `feed`: the events of one fragment, in order; the first error stops
      the feed. */
  function Feed(v: Validator, events: seq<TagEvent>): Result<Validator, string>
    decreases |events|
  {
    if |events| == 0 then Ok(v)
    else
      match events[0]
      case Start(name, attrs) =>
        (match HandleStartTag(v, name, attrs)
         case Ok(v') => Feed(v', events[1..])
         case Err(e) => Err(e))
      case End(name) => Feed(HandleEndTag(v, name), events[1..])
  }

  /** No event sequence makes the validator raise. */
  lemma {:induction false} FeedNeverFails(v: Validator, events: seq<TagEvent>)
    ensures Feed(v, events).Ok?
    decreases |events|
  {
    if |events| > 0 {
      match events[0]
      case Start(name, attrs) => FeedNeverFails(HandleStartTag(v, name, attrs).value, events[1..]);
      case End(name) => FeedNeverFails(HandleEndTag(v, name), events[1..]);
    }
  }

  /** Feeding only adds to the set of tags seen, and adds exactly the
      started tags. */
  lemma {:induction false} FeedFoundGrows(v: Validator, events: seq<TagEvent>)
    ensures Feed(v, events).Ok?
    ensures Feed(v, events).value.found == v.found + StartedNames(events)
    decreases |events|
  {
    FeedNeverFails(v, events);
    if |events| > 0 {
      StartedNamesCons(events);
      match events[0]
      case Start(name, attrs) => FeedFoundGrows(HandleStartTag(v, name, attrs).value, events[1..]);
      case End(name) => FeedFoundGrows(HandleEndTag(v, name), events[1..]);
    }
  }

  /** The names of the start events. */
  function StartedNames(events: seq<TagEvent>): set<string> {
    set i | 0 <= i < |events| && events[i].Start? :: events[i].name
  }

  lemma StartedNamesCons(events: seq<TagEvent>)
    requires |events| > 0
    ensures StartedNames(events) ==
      (if events[0].Start? then {events[0].name} else {}) + StartedNames(events[1..])
  {
    var rest := events[1..];
    forall x | x in StartedNames(events)
      ensures x in (if events[0].Start? then {events[0].name} else {}) + StartedNames(rest)
    {
      var i :| 0 <= i < |events| && events[i].Start? && events[i].name == x;
      if i > 0 {
        assert rest[i - 1] == events[i];
      }
    }
    forall x | x in StartedNames(rest) ensures x in StartedNames(events) {
      var i :| 0 <= i < |rest| && rest[i].Start? && rest[i].name == x;
      assert events[i + 1] == rest[i];
    }
  }

  /** Feeding two fragments one after the other is feeding their
      concatenation: nothing is reset in between. */
  lemma {:induction false} FeedAccumulates(v: Validator, a: seq<TagEvent>, b: seq<TagEvent>)
    ensures Feed(v, a).Ok?
    ensures Feed(v, a + b) == Feed(Feed(v, a).value, b)
    decreases |a|
  {
    FeedNeverFails(v, a);
    if |a| == 0 {
      assert a + b == b;
    } else {
      assert (a + b)[0] == a[0];
      assert (a + b)[1..] == a[1..] + b;
      match a[0]
      case Start(name, attrs) => FeedAccumulates(HandleStartTag(v, name, attrs).value, a[1..], b);
      case End(name) => FeedAccumulates(HandleEndTag(v, name), a[1..], b);
    }
  }

  /** `validate()`: balanced when nothing is left open, complete when every
      required tag was seen at some point. */
  function Validate(v: Validator): (r: Validation)
    ensures r.isBalanced <==> |v.tags| == 0
    ensures r.hasRequiredTags <==> "article" in v.found && "h1" in v.found && "p" in v.found
  {
    Validation(|v.tags| == 0, RequiredTags <= v.found)
  }

  // ---------------------------------------------------------------------
  // Well-nested fragments
  // ---------------------------------------------------------------------

  /** An HTML element tree: a container element with children, or a void
      element (`img`, `br`, `hr`) that only has a start tag. */
  datatype Element =
    | Container(name: string, children: seq<Element>)
    | Void(name: string)

  predicate WellFormed(e: Element) {
    match e
    case Container(name, children) =>
      name !in SelfClosingTags && forall c :: c in children ==> WellFormed(c)
    case Void(name) => name in SelfClosingTags
  }

  /** The tag events of a tree in document order. */
  function Events(e: Element): seq<TagEvent>
    decreases e, 1
  {
    match e
    case Container(name, children) => [Start(name, [])] + ForestEvents(children) + [End(name)]
    case Void(name) => [Start(name, [])]
  }

  function ForestEvents(es: seq<Element>): seq<TagEvent>
    decreases es, 0
  {
    if |es| == 0 then [] else ForestEvents(es[..|es| - 1]) + Events(es[|es| - 1])
  }

  /** A well-formed element leaves the stack as it found it, whatever is
      already open below it. */
  lemma {:induction false} ElementKeepsStack(v: Validator, e: Element)
    requires WellFormed(e)
    ensures Feed(v, Events(e)).Ok?
    ensures Feed(v, Events(e)).value.tags == v.tags
    decreases e, 1
  {
    FeedNeverFails(v, Events(e));
    match e
    case Void(name) =>
      var w := HandleStartTag(v, name, []).value;
      assert Events(e)[1..] == [];
      assert Feed(v, Events(e)) == Feed(w, []);
    case Container(name, children) =>
      var w := HandleStartTag(v, name, []).value;
      assert w.tags == v.tags + [name];
      var inner := ForestEvents(children);
      assert Events(e) == [Start(name, [])] + (inner + [End(name)]);
      assert Feed(v, Events(e)) == Feed(w, inner + [End(name)]);
      ForestKeepsStack(w, children);
      FeedAccumulates(w, inner, [End(name)]);
      var u := Feed(w, inner).value;
      assert u.tags == v.tags + [name];
      assert LastIndexOf(u.tags, name) == Some(|v.tags|);
      assert HandleEndTag(u, name).tags == v.tags;
      assert Feed(u, [End(name)]) == Feed(HandleEndTag(u, name), []);
  }

  lemma {:induction false} ForestKeepsStack(v: Validator, es: seq<Element>)
    requires forall c :: c in es ==> WellFormed(c)
    ensures Feed(v, ForestEvents(es)).Ok?
    ensures Feed(v, ForestEvents(es)).value.tags == v.tags
    decreases es, 0
  {
    FeedNeverFails(v, ForestEvents(es));
    if |es| > 0 {
      var init, last := es[..|es| - 1], es[|es| - 1];
      assert forall c :: c in init ==> c in es;
      assert last in es;
      ForestKeepsStack(v, init);
      FeedAccumulates(v, ForestEvents(init), Events(last));
      ElementKeepsStack(Feed(v, ForestEvents(init)).value, last);
    }
  }

  /** A well-formed `<article>` tree fed to a fresh validator is balanced,
      and reports the required tags exactly when they occur in it. */
  lemma WellNestedArticleIsBalanced(e: Element)
    requires WellFormed(e)
    ensures Feed(Fresh, Events(e)).Ok?
    ensures Validate(Feed(Fresh, Events(e)).value).isBalanced
    ensures Validate(Feed(Fresh, Events(e)).value).hasRequiredTags <==> RequiredTags <= StartedNames(Events(e))
  {
    ElementKeepsStack(Fresh, e);
    FeedFoundGrows(Fresh, Events(e));
  }
}
