/** The hyperalert knowledge loader of correlation.c (_AI_hyperalert_from_XML):
    a state machine over the node stream an XML reader yields for one
    knowledge file. The reader itself is not modelled: a file is given as the
    sequence of its nodes, or as None when it is missing or cannot be opened. */
module KnowledgeParser {
  import opened Strings
  import opened Alerts

  /** One node as xmlTextReaderRead delivers it. Other stands for every node
      type the loop ignores (comments, whitespace, CDATA, processing
      instructions, the document type). */
  datatype Event = Open(name: string) | Close(name: string) | Text(value: string) | Other

  /** The four recognised elements, in the order of the C enum. */
  datatype Tag = HyperAlertTag | SnortIdTag | PreTag | PostTag

  /** TAG_NUM: the length of the flag vector xmlFlags. */
  const TAG_NUM := 4

  /** The index of a tag's entry in xmlFlags (inHyperAlert .. inPostTag). */
  function Slot(t: Tag): (i: nat)
    ensures i < TAG_NUM
  {
    match t
    case HyperAlertTag => 0
    case SnortIdTag => 1
    case PreTag => 2
    case PostTag => 3
  }

  function TagName(t: Tag): string
  {
    match t
    case HyperAlertTag => "hyperalert"
    case SnortIdTag => "snort-id"
    case PreTag => "pre"
    case PostTag => "post"
  }

  /** The strcasecmp chain of correlation.c:200-227 (the same chain closes
      tags at :231-254), with strcasecmp(a, b) == 0 written as equality of
      the lower-cased strings (SameIgnoringCaseIff shows the two agree). */
  function Recognise(name: string): Option<Tag>
  {
    var folded := LowerAll(name);
    if folded == "hyperalert" then Some(HyperAlertTag)
    else if folded == "snort-id" then Some(SnortIdTag)
    else if folded == "pre" then Some(PreTag)
    else if folded == "post" then Some(PostTag)
    else None
  }

  datatype Option<T> = None | Some(value: T)

  /** Why the loader stops the process (each is a fatalMsg call). */
  datatype Violation =
    | OpenedTwice(tag: Tag)
    | OpenedOutsideHyperalert(tag: Tag)
    | ClosedNotOpen(tag: Tag)
    | Unrecognised(name: string)

  /** What the loader reports: a fatal error, NULL, or the description. */
  datatype Outcome = Fatal(violation: Violation) | NotFound | Found(desc: Desc)

  type Flags = f: seq<bool> | |f| == TAG_NUM witness [false, false, false, false]

  /** The loader's state between two nodes: xmlFlags and the lists built so far. */
  datatype State = State(flags: Flags, preconds: seq<string>, postconds: seq<string>)

  /** Either still reading, or finished with an outcome before the end of the stream. */
  datatype Progress = Reading(state: State) | Stopped(outcome: Outcome)

  function Initial(): State
  {
    State([false, false, false, false], [], [])
  }

  /** One iteration of the loop at correlation.c:193-285. */
  function Step(key: Key, st: State, e: Event): Progress
  {
    match e
    case Open(name) =>
      (match Recognise(name)
       case None => Stopped(Fatal(Unrecognised(name)))
       case Some(t) =>
         if st.flags[Slot(t)] then Stopped(Fatal(OpenedTwice(t)))
         else if t != HyperAlertTag && !st.flags[Slot(HyperAlertTag)] then Stopped(Fatal(OpenedOutsideHyperalert(t)))
         else Reading(st.(flags := st.flags[Slot(t) := true])))
    case Close(name) =>
      (match Recognise(name)
       case None => Stopped(Fatal(Unrecognised(name)))
       case Some(t) =>
         if !st.flags[Slot(t)] then Stopped(Fatal(ClosedNotOpen(t)))
         else Reading(st.(flags := st.flags[Slot(t) := false])))
    case Text(v) =>
      if st.flags[Slot(SnortIdTag)] then
        (if v != SnortId(key) then Stopped(NotFound) else Reading(st))
      else if st.flags[Slot(PreTag)] then Reading(st.(preconds := st.preconds + [v]))
      else if st.flags[Slot(PostTag)] then Reading(st.(postconds := st.postconds + [v]))
      else Reading(st)
    case Other => Reading(st)
  }

  /** The loop run over the remaining nodes. */
  function Run(key: Key, st: State, events: seq<Event>): Progress
    decreases |events|
  {
    if events == [] then Reading(st)
    else
      match Step(key, st, events[0])
      case Stopped(o) => Stopped(o)
      case Reading(next) => Run(key, next, events[1..])
  }

  /** Continue a run with more nodes, unless it has already stopped. */
  function Then(key: Key, p: Progress, events: seq<Event>): Progress
  {
    match p
    case Stopped(o) => Stopped(o)
    case Reading(st) => Run(key, st, events)
  }

  /** The whole loader: no file gives NULL; a stream read to its end gives
      the description, whatever tags are still open. */
  function Parse(key: Key, file: Option<seq<Event>>): Outcome
  {
    match file
    case None => NotFound
    case Some(events) =>
      match Run(key, Initial(), events)
      case Stopped(o) => o
      case Reading(st) => Found(Desc(key, st.preconds, st.postconds))
  }

  /** _AI_hyperalert_from_XML over a given node stream. */
  method LoadHyperalert(key: Key, file: Option<seq<Event>>) returns (r: Outcome)
    ensures r == Parse(key, file)
  {
    if file.None? {
      return NotFound;
    }
    var events := file.value;
    var xmlFlags := new bool[TAG_NUM](_ => false);
    var preconds: seq<string> := [];
    var postconds: seq<string> := [];
    var i := 0;
    assert xmlFlags[..] == Initial().flags;
    while i < |events|
      invariant 0 <= i <= |events|
      invariant xmlFlags.Length == TAG_NUM
      invariant Run(key, Initial(), events) == Run(key, State(xmlFlags[..], preconds, postconds), events[i..])
    {
      ghost var st := State(xmlFlags[..], preconds, postconds);
      assert Run(key, st, events[i..]) == Then(key, Step(key, st, events[i]), events[i + 1..]) by {
        assert events[i..][0] == events[i] && events[i..][1..] == events[i + 1..];
      }
      match events[i] {
      case Open(name) =>
        var tag := Recognise(name);
        if tag.None? {
          return Fatal(Unrecognised(name));
        }
        var t := tag.value;
        if xmlFlags[Slot(t)] {
          return Fatal(OpenedTwice(t));
        }
        if t != HyperAlertTag && !xmlFlags[Slot(HyperAlertTag)] {
          return Fatal(OpenedOutsideHyperalert(t));
        }
        xmlFlags[Slot(t)] := true;
      case Close(name) =>
        var tag := Recognise(name);
        if tag.None? {
          return Fatal(Unrecognised(name));
        }
        var t := tag.value;
        if !xmlFlags[Slot(t)] {
          return Fatal(ClosedNotOpen(t));
        }
        xmlFlags[Slot(t)] := false;
      case Text(v) =>
        if xmlFlags[Slot(SnortIdTag)] {
          if v != SnortId(key) {
            return NotFound;
          }
        } else if xmlFlags[Slot(PreTag)] {
          preconds := preconds + [v];
        } else if xmlFlags[Slot(PostTag)] {
          postconds := postconds + [v];
        }
      case Other =>
      }
      i := i + 1;
    }
    assert events[i..] == [];
    return Found(Desc(key, preconds, postconds));
  }

  // ---------------------------------------------------------------------------
  // Properties of the loader
  // ---------------------------------------------------------------------------

  /** Tag names are matched case-insensitively: a name is recognised as a tag
      exactly when strcasecmp finds it equal to that tag's name, that is
      when its lower-case form is that name. */
  lemma RecogniseIff(name: string, t: Tag)
    ensures Recognise(name) == Some(t) <==> SameIgnoringCase(name, TagName(t))
    ensures Recognise(name) == Some(t) <==> LowerAll(name) == TagName(t)
  {
    SameIgnoringCaseIff(name, "hyperalert");
    SameIgnoringCaseIff(name, "snort-id");
    SameIgnoringCaseIff(name, "pre");
    SameIgnoringCaseIff(name, "post");
    assert LowerAll("hyperalert") == "hyperalert";
    assert LowerAll("snort-id") == "snort-id";
    assert LowerAll("pre") == "pre";
    assert LowerAll("post") == "post";
  }

  /** A structural violation, stated on lower-cased names: a name that is no
      tag, a tag opened while its flag is set, snort-id, pre or post opened
      outside hyperalert, a tag closed while its flag is clear. */
  ghost predicate Violates(st: State, e: Event)
  {
    match e
    case Open(n) =>
      (forall t :: LowerAll(n) != TagName(t)) ||
      (exists t :: LowerAll(n) == TagName(t) &&
                   (st.flags[Slot(t)] || (t != HyperAlertTag && !st.flags[Slot(HyperAlertTag)])))
    case Close(n) =>
      (forall t :: LowerAll(n) != TagName(t)) ||
      (exists t :: LowerAll(n) == TagName(t) && !st.flags[Slot(t)])
    case Text(_) => false
    case Other => false
  }

  /** A node stops the loader with a fatal error exactly when it is a structural violation. */
  lemma StepFatalIff(key: Key, st: State, e: Event)
    ensures Step(key, st, e).Stopped? && Step(key, st, e).outcome.Fatal? <==> Violates(st, e)
  {
    match e
    case Open(n) =>
      forall t { RecogniseIff(n, t); }
    case Close(n) =>
      forall t { RecogniseIff(n, t); }
    case Text(_) =>
    case Other =>
  }

  /** A text node never changes a flag. Inside snort-id it is only checked
      against the key's "<gid>.<sid>.<rev>"; otherwise inside pre it becomes
      the last precondition, otherwise inside post the last postcondition,
      and anywhere else it is dropped. */
  lemma TextPlacement(key: Key, st: State, v: string)
    ensures Step(key, st, Text(v)) == Stopped(NotFound) <==> st.flags[Slot(SnortIdTag)] && v != SnortId(key)
    ensures Step(key, st, Text(v)).Reading? ==>
            var next := Step(key, st, Text(v)).state;
            var inId, inPre, inPost := st.flags[Slot(SnortIdTag)], st.flags[Slot(PreTag)], st.flags[Slot(PostTag)];
            next.flags == st.flags &&
            next.preconds == (if !inId && inPre then st.preconds + [v] else st.preconds) &&
            next.postconds == (if !inId && !inPre && inPost then st.postconds + [v] else st.postconds)
  {
  }

  /** Running over two pieces of a stream is running over the first and then the second. */
  lemma {:induction false} RunAppend(key: Key, st: State, a: seq<Event>, b: seq<Event>)
    ensures Run(key, st, a + b) == Then(key, Run(key, st, a), b)
    decreases |a|
  {
    if a == [] {
      assert a + b == b;
    } else {
      assert (a + b)[0] == a[0] && (a + b)[1..] == a[1..] + b;
      match Step(key, st, a[0])
      case Stopped(_) =>
      case Reading(next) => RunAppend(key, next, a[1..], b);
    }
  }

  /** Opening the same name twice in a row is fatal from any state. */
  lemma DoubleOpenFatal(key: Key, st: State, name: string, rest: seq<Event>)
    ensures Run(key, st, [Open(name), Open(name)] + rest).Stopped?
    ensures Run(key, st, [Open(name), Open(name)] + rest).outcome.Fatal?
  {
    var evs := [Open(name), Open(name)] + rest;
    assert evs[0] == Open(name) && evs[1..][0] == Open(name);
  }

  /** Wherever a double open occurs in a file, the loader fails fatally,
      unless it already stopped on an earlier node. */
  lemma DoubleOpenAnywhere(key: Key, prefix: seq<Event>, name: string, rest: seq<Event>)
    requires Run(key, Initial(), prefix).Reading?
    ensures Parse(key, Some(prefix + [Open(name), Open(name)] + rest)).Fatal?
  {
    assert prefix + [Open(name), Open(name)] + rest == prefix + ([Open(name), Open(name)] + rest);
    RunAppend(key, Initial(), prefix, [Open(name), Open(name)] + rest);
    DoubleOpenFatal(key, Run(key, Initial(), prefix).state, name, rest);
  }

  /** Text inside snort-id that is not "<gid>.<sid>.<rev>" of the probed key
      makes the loader report NULL, whatever follows. */
  lemma MismatchIsNotFound(key: Key, prefix: seq<Event>, v: string, rest: seq<Event>)
    requires Run(key, Initial(), prefix).Reading?
    requires Run(key, Initial(), prefix).state.flags[Slot(SnortIdTag)]
    requires v != SnortId(key)
    ensures Parse(key, Some(prefix + [Text(v)] + rest)) == NotFound
  {
    assert prefix + [Text(v)] + rest == prefix + ([Text(v)] + rest);
    RunAppend(key, Initial(), prefix, [Text(v)] + rest);
    assert ([Text(v)] + rest)[0] == Text(v);
  }

  /** The loader only stops early with a fatal error or NULL; a description
      is produced only once the whole stream has been read. */
  lemma {:induction false} StopIsNeverFound(key: Key, st: State, events: seq<Event>)
    ensures Run(key, st, events).Stopped? ==> !Run(key, st, events).outcome.Found?
    decreases |events|
  {
    if events != [] && Step(key, st, events[0]).Reading? {
      StopIsNeverFound(key, Step(key, st, events[0]).state, events[1..]);
    }
  }

  /** A description always carries the key it was probed for. */
  lemma FoundKey(key: Key, file: Option<seq<Event>>)
    requires Parse(key, file).Found?
    ensures Parse(key, file).desc.key == key
  {
    StopIsNeverFound(key, Initial(), file.value);
  }

  /** Reading never removes or reorders conditions: the lists only grow at their ends. */
  lemma {:induction false} RunOnlyAppends(key: Key, st: State, events: seq<Event>)
    requires Run(key, st, events).Reading?
    ensures st.preconds <= Run(key, st, events).state.preconds
    ensures st.postconds <= Run(key, st, events).state.postconds
    decreases |events|
  {
    if events != [] {
      var next := Step(key, st, events[0]).state;
      RunOnlyAppends(key, next, events[1..]);
    }
  }

  // A well-formed knowledge file, as the loader expects it.

  function Element(t: Tag, v: string): seq<Event>
  {
    [Open(TagName(t)), Text(v), Close(TagName(t))]
  }

  function Elements(t: Tag, vs: seq<string>): seq<Event>
    decreases |vs|
  {
    if vs == [] then [] else Element(t, vs[0]) + Elements(t, vs[1..])
  }

  /** <hyperalert><snort-id>gid.sid.rev</snort-id><pre>..</pre>..<post>..</post>..</hyperalert> */
  function Document(key: Key, pres: seq<string>, posts: seq<string>): seq<Event>
  {
    [Open("hyperalert")] + Element(SnortIdTag, SnortId(key))
      + Elements(PreTag, pres) + Elements(PostTag, posts) + [Close("hyperalert")]
  }

  lemma RecogniseTagName(t: Tag)
    ensures Recognise(TagName(t)) == Some(t)
  {
    RecogniseIff(TagName(t), t);
    match t
    case HyperAlertTag => assert LowerAll("hyperalert") == "hyperalert";
    case SnortIdTag => assert LowerAll("snort-id") == "snort-id";
    case PreTag => assert LowerAll("pre") == "pre";
    case PostTag => assert LowerAll("post") == "post";
  }

  const InsideHyperalert: Flags := [true, false, false, false]

  /** One node and then the rest. */
  lemma RunCons(key: Key, st: State, e: Event, rest: seq<Event>)
    ensures Run(key, st, [e] + rest) == Then(key, Step(key, st, e), rest)
  {
    assert ([e] + rest)[0] == e && ([e] + rest)[1..] == rest;
  }

  /** One <pre> (or <post>) element read inside hyperalert adds its text to its list. */
  lemma RunElement(key: Key, st: State, t: Tag, v: string)
    requires t == PreTag || t == PostTag
    requires st.flags == InsideHyperalert
    ensures Run(key, st, Element(t, v)) ==
            Reading(if t == PreTag then st.(preconds := st.preconds + [v])
                    else st.(postconds := st.postconds + [v]))
  {
    RecogniseTagName(t);
    var inTag := st.(flags := st.flags[Slot(t) := true]);
    var added := if t == PreTag then inTag.(preconds := st.preconds + [v])
                 else inTag.(postconds := st.postconds + [v]);
    var closed := added.(flags := st.flags);
    assert Step(key, st, Open(TagName(t))) == Reading(inTag);
    assert Step(key, inTag, Text(v)) == Reading(added);
    assert added.flags[Slot(t) := false] == st.flags;
    assert Step(key, added, Close(TagName(t))) == Reading(closed);
    RunCons(key, added, Close(TagName(t)), []);
    RunCons(key, inTag, Text(v), [Close(TagName(t))]);
    RunCons(key, st, Open(TagName(t)), [Text(v), Close(TagName(t))]);
    assert [Close(TagName(t))] + [] == [Close(TagName(t))];
    assert Element(t, v) == [Open(TagName(t))] + ([Text(v)] + [Close(TagName(t))]);
  }

  /** Each <pre> (or <post>) element adds its text at the end of its list. */
  lemma {:induction false} RunElements(key: Key, st: State, t: Tag, vs: seq<string>)
    requires t == PreTag || t == PostTag
    requires st.flags == InsideHyperalert
    ensures Run(key, st, Elements(t, vs)) ==
            Reading(if t == PreTag then st.(preconds := st.preconds + vs)
                    else st.(postconds := st.postconds + vs))
    decreases |vs|
  {
    if vs == [] {
      assert st.preconds + vs == st.preconds && st.postconds + vs == st.postconds;
    } else {
      var st' := if t == PreTag then st.(preconds := st.preconds + [vs[0]])
                 else st.(postconds := st.postconds + [vs[0]]);
      RunElement(key, st, t, vs[0]);
      RunAppend(key, st, Element(t, vs[0]), Elements(t, vs[1..]));
      RunElements(key, st', t, vs[1..]);
      assert st.preconds + [vs[0]] + vs[1..] == st.preconds + vs;
      assert st.postconds + [vs[0]] + vs[1..] == st.postconds + vs;
    }
  }

  /** <hyperalert><snort-id>..</snort-id> read from the start leaves only hyperalert open. */
  lemma RunHead(key: Key)
    ensures Run(key, Initial(), [Open("hyperalert")] + Element(SnortIdTag, SnortId(key)))
            == Reading(State(InsideHyperalert, [], []))
  {
    RecogniseTagName(HyperAlertTag);
    RecogniseTagName(SnortIdTag);
    var inHyp := State([true, false, false, false], [], []);
    var inId := State([true, true, false, false], [], []);
    assert Initial().flags[Slot(HyperAlertTag) := true] == inHyp.flags;
    assert inHyp.flags[Slot(SnortIdTag) := true] == inId.flags;
    assert inId.flags[Slot(SnortIdTag) := false] == InsideHyperalert;
    assert Step(key, Initial(), Open("hyperalert")) == Reading(inHyp);
    assert Step(key, inHyp, Open("snort-id")) == Reading(inId);
    assert Step(key, inId, Text(SnortId(key))) == Reading(inId);
    assert Step(key, inId, Close("snort-id")) == Reading(State(InsideHyperalert, [], []));
    RunCons(key, inId, Close("snort-id"), []);
    RunCons(key, inId, Text(SnortId(key)), [Close("snort-id")]);
    RunCons(key, inHyp, Open("snort-id"), [Text(SnortId(key)), Close("snort-id")]);
    RunCons(key, Initial(), Open("hyperalert"), [Open("snort-id"), Text(SnortId(key)), Close("snort-id")]);
    assert [Close("snort-id")] + [] == [Close("snort-id")];
  }

  /** The conditions and the closing tag, read with only hyperalert open. */
  lemma RunBody(key: Key, pres: seq<string>, posts: seq<string>)
    ensures Run(key, State(InsideHyperalert, [], []),
                Elements(PreTag, pres) + (Elements(PostTag, posts) + [Close("hyperalert")]))
            == Reading(State([false, false, false, false], pres, posts))
  {
    var tail := [Close("hyperalert")];
    var inside := State(InsideHyperalert, [], []);
    var withPre := State(InsideHyperalert, pres, []);
    var withBoth := State(InsideHyperalert, pres, posts);
    RunElements(key, inside, PreTag, pres);
    assert [] + pres == pres && [] + posts == posts;
    RunElements(key, withPre, PostTag, posts);
    RecogniseTagName(HyperAlertTag);
    RunCons(key, withBoth, Close("hyperalert"), []);
    assert tail == [Close("hyperalert")] + [];
    RunAppend(key, inside, Elements(PreTag, pres), Elements(PostTag, posts) + tail);
    RunAppend(key, withPre, Elements(PostTag, posts), tail);
  }

  /** Two consecutive pieces of a file read without stopping. */
  lemma ParseTwoPieces(key: Key, head: seq<Event>, body: seq<Event>, mid: State, last: State)
    requires Run(key, Initial(), head) == Reading(mid)
    requires Run(key, mid, body) == Reading(last)
    ensures Parse(key, Some(head + body)) == Found(Desc(key, last.preconds, last.postconds))
  {
    RunAppend(key, Initial(), head, body);
  }

  /** Parsing a well-formed knowledge file gives back its key and its
      conditions, in document order. */
  lemma ParseDocument(key: Key, pres: seq<string>, posts: seq<string>)
    ensures Parse(key, Some(Document(key, pres, posts))) == Found(Desc(key, pres, posts))
  {
    var head := [Open("hyperalert")] + Element(SnortIdTag, SnortId(key));
    var body := Elements(PreTag, pres) + (Elements(PostTag, posts) + [Close("hyperalert")]);
    assert Document(key, pres, posts) == head + body;
    RunHead(key);
    RunBody(key, pres, posts);
    ParseTwoPieces(key, head, body, State(InsideHyperalert, [], []), State([false, false, false, false], pres, posts));
  }

  // Where the code is more lenient or stricter than a reader of the file format might expect.

  /** An event stream with no element at all gives an empty description. No
      file read without a reader error yields such a stream, since a readable
      file has a root element. */
  lemma EmptyStreamIsFound(key: Key)
    ensures Parse(key, Some([])) == Found(Desc(key, [], []))
  {
  }

  /** The first element of a file must be hyperalert: any other root name is
      either no tag or a tag opened outside hyperalert, and is fatal. */
  lemma RootMustBeHyperalert(key: Key, name: string, rest: seq<Event>)
    requires LowerAll(name) != TagName(HyperAlertTag)
    ensures Parse(key, Some([Open(name)] + rest)).Fatal?
  {
    RunCons(key, Initial(), Open(name), rest);
    match Recognise(name)
    case None =>
    case Some(t) =>
      RecogniseIff(name, t);
  }

  /** Nothing checks that a snort-id element was present: the file
      `<hyperalert/>` gives an empty description. */
  lemma BareHyperalertIsFound(key: Key)
    ensures Parse(key, Some([Open("hyperalert")])) == Found(Desc(key, [], []))
  {
    RecogniseTagName(HyperAlertTag);
    assert Initial().flags[Slot(HyperAlertTag) := true] == InsideHyperalert;
    RunCons(key, Initial(), Open("hyperalert"), []);
  }

  /** Nothing checks at the end of the stream that every element was closed. */
  lemma UnclosedTagsAccepted(key: Key, v: string)
    ensures Parse(key, Some([Open("hyperalert"), Open("pre"), Text(v)])) == Found(Desc(key, [v], []))
  {
    RecogniseTagName(HyperAlertTag);
    RecogniseTagName(PreTag);
    var inHyp := State([true, false, false, false], [], []);
    var inPre := State([true, false, true, false], [], []);
    assert Initial().flags[Slot(HyperAlertTag) := true] == inHyp.flags;
    assert inHyp.flags[Slot(PreTag) := true] == inPre.flags;
    RunCons(key, inPre, Text(v), []);
    RunCons(key, inHyp, Open("pre"), [Text(v)]);
    RunCons(key, Initial(), Open("hyperalert"), [Open("pre"), Text(v)]);
    assert [Text(v)] + [] == [Text(v)];
  }

  /** <hyperalert><snort-id><pre> from the start: all three are open. */
  lemma RunThreeOpens(key: Key)
    ensures Run(key, Initial(), [Open("hyperalert"), Open("snort-id"), Open("pre")])
            == Reading(State([true, true, true, false], [], []))
  {
    RecogniseTagName(HyperAlertTag);
    RecogniseTagName(SnortIdTag);
    RecogniseTagName(PreTag);
    var s1 := State([true, false, false, false], [], []);
    var s2 := State([true, true, false, false], [], []);
    var s3 := State([true, true, true, false], [], []);
    assert Initial().flags[Slot(HyperAlertTag) := true] == s1.flags;
    assert s1.flags[Slot(SnortIdTag) := true] == s2.flags;
    assert s2.flags[Slot(PreTag) := true] == s3.flags;
    RunCons(key, s2, Open("pre"), []);
    RunCons(key, s1, Open("snort-id"), [Open("pre")]);
    RunCons(key, Initial(), Open("hyperalert"), [Open("snort-id"), Open("pre")]);
    assert [Open("pre")] + [] == [Open("pre")];
  }

  /** pre may be opened inside snort-id; text seen while both are open is
      checked as the snort-id and not kept as a precondition. */
  lemma PreInsideSnortId(key: Key, v: string)
    ensures Parse(key, Some([Open("hyperalert"), Open("snort-id"), Open("pre"), Text(SnortId(key)),
                             Close("snort-id"), Text(v)]))
            == Found(Desc(key, [v], []))
  {
    var head := [Open("hyperalert"), Open("snort-id"), Open("pre")];
    var body := [Text(SnortId(key)), Close("snort-id"), Text(v)];
    var s3 := State([true, true, true, false], [], []);
    var s4 := State([true, false, true, false], [], []);
    RunThreeOpens(key);
    assert Run(key, s3, body) == Reading(s4.(preconds := [v])) by {
      RecogniseTagName(SnortIdTag);
      assert s3.flags[Slot(SnortIdTag) := false] == s4.flags;
      RunCons(key, s4, Text(v), []);
      RunCons(key, s3, Close("snort-id"), [Text(v)]);
      RunCons(key, s3, Text(SnortId(key)), [Close("snort-id"), Text(v)]);
      assert [Text(v)] + [] == [Text(v)];
    }
    ParseTwoPieces(key, head, body, s3, s4.(preconds := [v]));
    assert head + body == [Open("hyperalert"), Open("snort-id"), Open("pre"), Text(SnortId(key)),
                           Close("snort-id"), Text(v)];
  }

  /** A snort-id mismatch reported before a structural error hides that error:
      the loader returns NULL without reading further. */
  lemma MismatchBeforeDoubleOpen(key: Key, v: string)
    requires v != SnortId(key)
    ensures Parse(key, Some([Open("hyperalert"), Open("snort-id"), Text(v), Open("pre"), Open("pre")])) == NotFound
  {
    RecogniseTagName(HyperAlertTag);
    RecogniseTagName(SnortIdTag);
    var s1 := State([true, false, false, false], [], []);
    var s2 := State([true, true, false, false], [], []);
    assert Initial().flags[Slot(HyperAlertTag) := true] == s1.flags;
    assert s1.flags[Slot(SnortIdTag) := true] == s2.flags;
    RunCons(key, s2, Text(v), [Open("pre"), Open("pre")]);
    RunCons(key, s1, Open("snort-id"), [Text(v), Open("pre"), Open("pre")]);
    RunCons(key, Initial(), Open("hyperalert"), [Open("snort-id"), Text(v), Open("pre"), Open("pre")]);
  }
}
