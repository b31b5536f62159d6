/**
 The message body of a chat message is a small markup fragment. The markup
 parser is a foreign library: the model starts from the tree it returns and
 walks that tree's top-level nodes the way `MessageContainer::deserialize_from`
 does, collecting the visible text and the hidden team marker.
 */
module Markup {
  import opened Wrappers
  import opened Text
  import opened Team

  /**
   A node of the parsed fragment. An element keeps its tag name, its class
   list, its children and the exact source text it was parsed from; `Other`
   stands for every remaining node kind (comments, for one).
   */
  datatype Node =
    | TextNode(text: string)
    | Element(name: string, classes: seq<string>, children: seq<Node>, source: string)
    | Other

  /** What the markup parser returns: the top-level nodes, or why it gave up. */
  datatype Dom = Parsed(children: seq<Node>) | Unparsable(reason: string)

  /** The decoded message body: visible text and the team it was sent under. */
  datatype MessageContainer = MessageContainer(text: string, team: Team)

  /** `span` whose class list is exactly `["teamColorSpan"]`. */
  predicate IsTeamSpan(n: Node) {
    n.Element? && n.name == "span" && n.classes == ["teamColorSpan"]
  }

  // Reference reading of the walk, one node at a time.

  /** The text one top-level node adds to the message. */
  function Contribution(n: Node): string {
    match n
    case TextNode(t) => t
    case Element(_, _, _, source) => if IsTeamSpan(n) then "" else source
    case Other => ""
  }

  /** The concatenated contributions of `nodes`, in order. */
  function Contributed(nodes: seq<Node>): string {
    if |nodes| == 0 then "" else Contribution(nodes[0]) + Contributed(nodes[1..])
  }

  /** The team a top-level node announces: a team span whose first child is a valid tag. */
  function SpanTeam(n: Node): Option<Team> {
    if IsTeamSpan(n) && |n.children| > 0 && n.children[0].TextNode? then
      NamedFromElement(n.children[0].text)
    else None
  }

  /** The team announced by the last node of `nodes` that announces one. */
  function LastSpanTeam(nodes: seq<Node>): Option<Team> {
    if |nodes| == 0 then None
    else if SpanTeam(nodes[|nodes| - 1]).Some? then SpanTeam(nodes[|nodes| - 1])
    else LastSpanTeam(nodes[..|nodes| - 1])
  }

  /** `x` announces a team only when no later node does. */
  lemma {:induction false} LastSpanTeamCons(x: Node, rest: seq<Node>)
    ensures LastSpanTeam([x] + rest) ==
              if LastSpanTeam(rest).Some? then LastSpanTeam(rest) else SpanTeam(x)
    decreases |rest|
  {
    var s := [x] + rest;
    if |rest| > 0 {
      assert s[|s| - 1] == rest[|rest| - 1];
      assert s[..|s| - 1] == [x] + rest[..|rest| - 1];
      LastSpanTeamCons(x, rest[..|rest| - 1]);
    } else {
      assert s[..|s| - 1] == [];
    }
  }

  // The walk itself.

  /**
   The `for child in dom.children` loop, with `text` and `team` the loop's
   mutable accumulators. Text is appended verbatim, a team span is kept out of
   the text and may replace the team, any other element adds its source text,
   and other nodes are skipped.
   */
  function Walk(nodes: seq<Node>, text: string, team: Team): (r: (string, Team))
    ensures r.0 == text + Contributed(nodes)
    ensures r.1 == if LastSpanTeam(nodes).Some? then LastSpanTeam(nodes).value else team
    decreases |nodes|
  {
    if |nodes| == 0 then (text, team)
    else
      var next: (string, Team) :=
        match nodes[0]
        case TextNode(t) => (text + t, team)
        case Element(name, classes, children, source) =>
          if name == "span" && classes == ["teamColorSpan"] then
            if |children| > 0 && children[0].TextNode? && NamedFromElement(children[0].text).Some? then
              (text, NamedFromElement(children[0].text).value)
            else (text, team)
          else (text + source, team)
        case Other => (text, team);
      LastSpanTeamCons(nodes[0], nodes[1..]);
      assert [nodes[0]] + nodes[1..] == nodes;
      Walk(nodes[1..], next.0, next.1)
  }

  /**
   `MessageContainer::deserialize_from` after the string itself has been
   read: a parse failure is a decode error; otherwise the walked text is
   trimmed and the team starts out empty.
   */
  function DeserializeFrom(dom: Dom): (r: Result<MessageContainer, string>)
    ensures r.Err? <==> dom.Unparsable?
    ensures r.Ok? ==> r.value.text == Trim(Contributed(dom.children))
    ensures r.Ok? ==> r.value.team == if LastSpanTeam(dom.children).Some? then LastSpanTeam(dom.children).value else Empty
  {
    match dom
    case Unparsable(reason) => Err(reason)
    case Parsed(children) =>
      var walked := Walk(children, "", Empty);
      assert walked.0 == Contributed(children);
      Ok(MessageContainer(Trim(walked.0), walked.1))
  }

  // Properties of the walk.

  lemma {:induction false} ContributedAppend(a: seq<Node>, b: seq<Node>)
    ensures Contributed(a + b) == Contributed(a) + Contributed(b)
    decreases |a|
  {
    if |a| > 0 {
      assert (a + b)[1..] == a[1..] + b;
      ContributedAppend(a[1..], b);
    } else {
      assert a + b == b;
    }
  }

  /** A team span never shows in the text, wherever it sits among the nodes. */
  lemma TeamSpanAddsNoText(before: seq<Node>, span: Node, after: seq<Node>)
    requires IsTeamSpan(span)
    ensures Contributed(before + [span] + after) == Contributed(before + after)
  {
    ContributedAppend(before + [span], after);
    ContributedAppend(before, [span]);
    ContributedAppend(before, after);
    assert Contributed([span]) == Contribution(span) + Contributed([]);
  }

  /** The nodes of `nodes` that are not team spans. */
  function WithoutTeamSpans(nodes: seq<Node>): (r: seq<Node>)
    ensures forall i :: 0 <= i < |r| ==> !IsTeamSpan(r[i])
  {
    if |nodes| == 0 then []
    else if IsTeamSpan(nodes[0]) then WithoutTeamSpans(nodes[1..])
    else [nodes[0]] + WithoutTeamSpans(nodes[1..])
  }

  /** Removing every team span leaves the text unchanged. */
  lemma {:induction false} TeamSpansIgnoredInText(nodes: seq<Node>)
    ensures Contributed(WithoutTeamSpans(nodes)) == Contributed(nodes)
    decreases |nodes|
  {
    if |nodes| > 0 {
      TeamSpansIgnoredInText(nodes[1..]);
      if !IsTeamSpan(nodes[0]) {
        ContributedAppend([nodes[0]], WithoutTeamSpans(nodes[1..]));
        assert Contributed([nodes[0]]) == Contribution(nodes[0]) + Contributed([]);
      }
    }
  }

  /** A team is found exactly when some node announces one. */
  lemma {:induction false} LastSpanTeamNone(nodes: seq<Node>)
    ensures LastSpanTeam(nodes).None? <==> forall i :: 0 <= i < |nodes| ==> SpanTeam(nodes[i]).None?
    decreases |nodes|
  {
    if |nodes| > 0 {
      var init := nodes[..|nodes| - 1];
      LastSpanTeamNone(init);
      assert forall i :: 0 <= i < |init| ==> init[i] == nodes[i];
      if LastSpanTeam(nodes).None? {
        assert SpanTeam(nodes[|nodes| - 1]).None?;
        assert forall i :: 0 <= i < |init| ==> SpanTeam(init[i]).None?;
      }
    }
  }

  /** `nodes[i]` announces a team and no later node does. */
  predicate IsLastAnnouncer(nodes: seq<Node>, i: int) {
    0 <= i < |nodes| && SpanTeam(nodes[i]).Some?
    && forall j :: i < j < |nodes| ==> SpanTeam(nodes[j]).None?
  }

  /** When a team is found, it is the one announced by the last announcing node. */
  lemma {:induction false} LastSpanTeamIsLastMatch(nodes: seq<Node>)
    ensures LastSpanTeam(nodes).Some? ==>
              exists i :: IsLastAnnouncer(nodes, i) && SpanTeam(nodes[i]) == LastSpanTeam(nodes)
    decreases |nodes|
  {
    if |nodes| > 0 {
      var last := |nodes| - 1;
      if SpanTeam(nodes[last]).Some? {
        assert IsLastAnnouncer(nodes, last);
      } else {
        var init := nodes[..last];
        LastSpanTeamIsLastMatch(init);
        assert LastSpanTeam(nodes) == LastSpanTeam(init);
        if LastSpanTeam(init).Some? {
          var i :| IsLastAnnouncer(init, i) && SpanTeam(init[i]) == LastSpanTeam(init);
          forall j | i < j < |nodes| ensures SpanTeam(nodes[j]).None? {
            if j < last { assert nodes[j] == init[j]; }
          }
          assert nodes[i] == init[i];
          assert IsLastAnnouncer(nodes, i);
        }
      }
    }
  }

  /** A parsed message has no team exactly when no top-level team span holds a valid tag. */
  lemma TeamEmptyIffNoTag(children: seq<Node>)
    ensures DeserializeFrom(Parsed(children)).value.team == Empty
            <==> forall i :: 0 <= i < |children| ==> SpanTeam(children[i]).None?
  {
    LastSpanTeamNone(children);
    var found := LastSpanTeam(children);
    if found.Some? {
      LastSpanTeamIsLastMatch(children);
      var i :| IsLastAnnouncer(children, i) && SpanTeam(children[i]) == found;
      assert found.value.Named?;
    }
  }

  // The fragments exercised by the repository's unit tests.

  const WgSpan: Node := Element("span", ["teamColorSpan"], [TextNode("-teamwg-")],
                                "<span style=\"display:none\" class=\"teamColorSpan\">-teamwg-</span>")

  /** A greentext line followed by a team span: the span's tag sets the team, the text is trimmed. */
  lemma GreentextExample()
    ensures DeserializeFrom(Parsed([TextNode("&gt;XD "), WgSpan]))
            == Ok(MessageContainer("&gt;XD", Named("wg")))
  {
    NamedFromTag("wg");
    assert Tag("wg") == "-teamwg-";
    TrimSurrounded([], "&gt;XD", " ");
    assert [] + "&gt;XD" + " " == "&gt;XD ";
    var nodes := [TextNode("&gt;XD "), WgSpan];
    assert nodes[1..][1..] == [];
    assert Contributed(nodes[1..]) == "";
    assert Contributed(nodes) == "&gt;XD ";
    assert LastSpanTeam([TextNode("&gt;XD "), WgSpan]) == Some(Named("wg"));
  }

  /** An element that is not a team span (a linked image) is kept as its source text. */
  lemma ImageExample(image: string)
    requires IsTrimmed(image)
    ensures DeserializeFrom(Parsed([Element("a", [], [Element("img", [], [], "<img />")], image)]))
            == Ok(MessageContainer(image, Empty))
  {
    var nodes := [Element("a", [], [Element("img", [], [], "<img />")], image)];
    assert Contributed(nodes[1..]) == "";
    assert Contributed(nodes) == image;
    assert LastSpanTeam(nodes[..0]) == None;
    assert LastSpanTeam(nodes) == None;
    TrimSurrounded([], image, []);
    assert [] + image + [] == image;
  }
}
