/**
 The team a chat message was sent under. The chat server marks it with a
 hidden `<span class="teamColorSpan">-team<name>-</span>` in the message body.
 */
module Team {
  import opened Wrappers

  datatype Team = Empty | Named(name: string)

  const TagPrefix: string := "-team"
  const TagSuffix: string := "-"

  /** The span text the server uses for team `name`. */
  function Tag(name: string): string {
    TagPrefix + name + TagSuffix
  }

  predicate StartsWith(s: string, prefix: string) {
    |prefix| <= |s| && s[..|prefix|] == prefix
  }

  predicate EndsWith(s: string, suffix: string) {
    |suffix| <= |s| && s[|s| - |suffix|..] == suffix
  }

  /**
   `Team::named_from_element`: recognises span text of the form
   `-team<name>-` with a non-empty name. The prefix and suffix are ASCII, so
   Rust's byte slice `[5..len - 1]` is the character slice below; the
   recogniser only slices once both checks have passed, and then the text is
   at least six characters long, so the slice is always in range.
   */
  function NamedFromElement(text: string): (r: Option<Team>)
    ensures r.Some? <==> StartsWith(text, TagPrefix) && EndsWith(text, TagSuffix) && |text| > 6
    ensures r.Some? ==> r.value.Named? && r.value.name != [] && text == Tag(r.value.name)
  {
    if !StartsWith(text, TagPrefix) then None
    else if !EndsWith(text, TagSuffix) then None
    else
      TagChecksBoundLength(text);
      var name := text[5..|text| - 1];
      if name == [] then None
      else
        assert text == Tag(name);
        Some(Named(name))
  }

  /** Both checks passing already forces the slice `[5..len - 1]` to be in range. */
  lemma TagChecksBoundLength(text: string)
    requires StartsWith(text, TagPrefix) && EndsWith(text, TagSuffix)
    ensures |text| >= 6
  {
    assert text[4] == text[..5][4] == 'm';
  }

  /** Round trip: the tag of a non-empty name is recognised as that name. */
  lemma NamedFromTag(name: string)
    requires name != []
    ensures NamedFromElement(Tag(name)) == Some(Named(name))
  {
    var text := Tag(name);
    assert text[..5] == TagPrefix;
    assert text[|text| - 1..] == TagSuffix;
    assert text[5..|text| - 1] == name;
  }

  /** The recogniser accepts exactly the tags of non-empty names. */
  lemma NamedFromElementExactly(text: string, name: string)
    ensures NamedFromElement(text) == Some(Named(name)) <==> name != [] && text == Tag(name)
  {
    if name != [] && text == Tag(name) {
      NamedFromTag(name);
    }
  }

  /** `-team-` names nobody. */
  lemma BlankTagRejected()
    ensures NamedFromElement(Tag("")) == None
  {
  }

  /** The recogniser's unit-test cases. */
  lemma NamedFromElementExamples()
    ensures NamedFromElement("-team1999-") == Some(Named("1999"))
    ensures NamedFromElement("-teama-") == Some(Named("a"))
    ensures NamedFromElement("-teamhanny-") == Some(Named("hanny"))
    ensures NamedFromElement("-teamv") == None
    ensures NamedFromElement("teamv") == None
  {
    NamedFromTag("1999");
    assert Tag("1999") == "-team1999-";
    NamedFromTag("a");
    assert Tag("a") == "-teama-";
    NamedFromTag("hanny");
    assert Tag("hanny") == "-teamhanny-";
  }

  /** `Display for Team`: `NULL` for no team, otherwise the name itself. */
  function Display(t: Team): (r: string)
    ensures t.Named? ==> r == t.name
    ensures t.Empty? ==> r == "NULL"
  {
    match t
    case Empty => "NULL"
    case Named(name) => name
  }

  /**
   The rendered team identifies the team, except that a team literally named
   `NULL` renders like no team at all.
   */
  lemma DisplayInjective(t: Team, u: Team)
    requires Display(t) == Display(u)
    ensures t == u || {t, u} == {Empty, Named("NULL")}
  {
  }
}
