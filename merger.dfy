/** The deduplicating merge of index.js: the links not already listed in
    the output file, one per line, are appended to it. */
module Merger {
  import opened Wrappers
  import opened Seqs
  import opened Strings

  /** The lines of the output file (`fileContent.split('\n')`), or none
      when the file does not exist. */
  function ExistingLines(file: Option<string>): seq<string> {
    match file
    case None => []
    case Some(text) => Split(text, '\n')
  }

  /** `links.filter(link => !existingLinks.includes(link))`: the links not
      among the existing lines, in order, repeated links all kept. */
  function NewLinks(existing: seq<string>, links: seq<string>): (u: seq<string>)
    ensures IsSubsequence(u, links)
    ensures forall l :: l in u <==> l in links && l !in existing
    ensures forall l :: l in u ==> multiset(u)[l] == multiset(links)[l]
  {
    Filter(l => l !in existing, links)
  }

  /** What `appendFileSync` adds: the new links joined by line feeds, with a
      final line feed. */
  function Appended(u: seq<string>): string {
    Join(u, '\n') + "\n"
  }

  /** The file after a merge of `links`: untouched when there are no links
      or no new ones; otherwise the new links appended, the file being
      created when it was absent. */
  function MergedContent(file: Option<string>, links: seq<string>): (r: Option<string>)
    ensures r == file <==> NewLinks(ExistingLines(file), links) == []
  {
    if links == [] then file
    else
      var u := NewLinks(ExistingLines(file), links);
      if u == [] then file else Some(file.GetOr("") + Appended(u))
  }

  /** The file as this program leaves it: absent, empty, or ending in a
      line feed. */
  predicate Terminated(file: Option<string>) {
    file.None? || file.value == "" || file.value[|file.value| - 1] == '\n'
  }

  /** No link spans two lines. */
  predicate SingleLine(links: seq<string>) {
    forall k :: 0 <= k < |links| ==> '\n' !in links[k]
  }

  /** The output file, which a merge updates in place. */
  class LinkFile {
    var content: Option<string>

    constructor(initial: Option<string>)
      ensures content == initial
    {
      content := initial;
    }

    /** The merge step: read the existing lines, keep the new links, and
        append them when there are any. The result is `uniqueLinks`, which
        stays undefined (`None`) when there are no links at all. */
    method Merge(links: seq<string>) returns (unique: Option<seq<string>>)
      modifies this
      ensures unique == if links == [] then None else Some(NewLinks(ExistingLines(old(content)), links))
      ensures content == MergedContent(old(content), links)
    {
      unique := None;
      if |links| > 0 {
        var existing: seq<string> := [];
        if content.Some? {
          existing := Split(content.value, '\n');
        }
        var u := NewLinks(existing, links);
        unique := Some(u);
        if |u| > 0 {
          content := Some(content.GetOr("") + Join(u, '\n') + "\n");
          assert content.value == old(content).GetOr("") + Appended(u);
        }
      }
    }
  }

  /** A merge only ever appends: an existing file keeps its content as a
      prefix, and an absent one is created holding just the new lines. */
  lemma MergeOnlyAppends(file: Option<string>, links: seq<string>)
    ensures file.Some? ==>
      MergedContent(file, links).Some? && file.value <= MergedContent(file, links).value
    ensures file.None? ==>
      MergedContent(file, links) == None || MergedContent(file, links) == Some(Appended(NewLinks([], links)))
  {
    var u := NewLinks(ExistingLines(file), links);
    assert "" + Appended(u) == Appended(u);
  }

  /** Nothing is written when no link is new. */
  lemma NothingNewNoWrite(file: Option<string>, links: seq<string>)
    requires forall l :: l in links ==> l in ExistingLines(file)
    ensures MergedContent(file, links) == file
  {
    if links != [] {
      FilterDropsAll(l => l !in ExistingLines(file), links);
    }
  }

  lemma AppendedLines(u: seq<string>)
    requires u != [] && SingleLine(u)
    ensures Split(Appended(u), '\n') == u + [""]
  {
    SplitAround(Join(u, '\n'), "", '\n');
    SplitJoin(u, '\n');
    assert Appended(u) == Join(u, '\n') + ['\n'] + "";
  }

  /** After a merge of single-line links into a terminated file, the lines
      of the file are its old lines (without the empty one after the final
      line feed), then the new links, then an empty line; the file is still
      terminated. */
  lemma MergedLines(file: Option<string>, links: seq<string>)
    requires Terminated(file) && SingleLine(links)
    requires NewLinks(ExistingLines(file), links) != []
    ensures var u := NewLinks(ExistingLines(file), links);
      && MergedContent(file, links).Some?
      && Terminated(MergedContent(file, links))
      && (file.None? || file.value == "" ==> ExistingLines(MergedContent(file, links)) == u + [""])
      && (file.Some? && file.value != "" ==>
            var before := Split(file.value[..|file.value| - 1], '\n');
            && ExistingLines(file) == before + [""]
            && ExistingLines(MergedContent(file, links)) == before + u + [""])
  {
    var u := NewLinks(ExistingLines(file), links);
    assert SingleLine(u) by {
      forall k | 0 <= k < |u| ensures '\n' !in u[k] {
        assert u[k] in u;
      }
    }
    assert MergedContent(file, links) == Some(file.GetOr("") + Appended(u));
    if file.Some? && file.value != "" {
      MergedIntoText(file.value, u);
    } else {
      AppendedLines(u);
      assert file.GetOr("") + Appended(u) == Appended(u);
    }
  }

  /** The lines of a non-empty terminated text with new lines appended. */
  lemma MergedIntoText(text: string, u: seq<string>)
    requires text != [] && text[|text| - 1] == '\n'
    requires u != [] && SingleLine(u)
    ensures var x := text[..|text| - 1];
      && Split(text, '\n') == Split(x, '\n') + [""]
      && Split(text + Appended(u), '\n') == Split(x, '\n') + u + [""]
      && (text + Appended(u))[|text + Appended(u)| - 1] == '\n'
  {
    AppendedLines(u);
    TerminatedLines(text, Appended(u));
  }

  /** The same, line by line as a set: after the merge a line is an old
      line, a new link, or the empty line. */
  lemma MergedLineSet(file: Option<string>, links: seq<string>)
    requires Terminated(file) && SingleLine(links)
    requires NewLinks(ExistingLines(file), links) != []
    ensures var u := NewLinks(ExistingLines(file), links);
      forall l :: l in ExistingLines(MergedContent(file, links)) <==>
        l in ExistingLines(file) || l in u || l == ""
  {
    MergedLines(file, links);
  }

  /** The lines of a text ending in a line feed, and of that text with more
      appended. */
  lemma TerminatedLines(text: string, more: string)
    requires text != [] && text[|text| - 1] == '\n'
    ensures var x := text[..|text| - 1];
      Split(text, '\n') == Split(x, '\n') + [""]
      && Split(text + more, '\n') == Split(x, '\n') + Split(more, '\n')
  {
    var x := text[..|text| - 1];
    assert text == x + ['\n'] + "";
    SplitAround(x, "", '\n');
    assert text + more == x + ['\n'] + more;
    SplitAround(x, more, '\n');
  }

  /** Merging the same single-line links a second time adds nothing, as long
      as the file was absent, empty, or ended in a line feed. */
  lemma MergeIdempotent(file: Option<string>, links: seq<string>)
    requires Terminated(file) && SingleLine(links)
    ensures MergedContent(MergedContent(file, links), links) == MergedContent(file, links)
  {
    var u := NewLinks(ExistingLines(file), links);
    if links != [] && u != [] {
      MergedLines(file, links);
      MergedLineSet(file, links);
      var merged := MergedContent(file, links);
      forall l | l in links ensures l in ExistingLines(merged) {
      }
      NothingNewNoWrite(merged, links);
    }
  }

  /** Without a final line feed a merge is not idempotent: the first link is
      glued onto the last line, so a second merge finds it new again. */
  lemma UnterminatedGlues()
    ensures MergedContent(Some("a"), ["x"]) == Some("ax\n")
    ensures MergedContent(Some("ax\n"), ["x"]) == Some("ax\nx\n")
  {
    GluedFirst();
    GluedSecond();
  }

  lemma NewSingle(existing: seq<string>, l: string)
    requires l !in existing
    ensures NewLinks(existing, [l]) == [l]
  {
    assert [l][1..] == [];
  }

  lemma GluedFirst()
    ensures MergedContent(Some("a"), ["x"]) == Some("ax\n")
  {
    SplitFree("a", '\n');
    assert ExistingLines(Some("a")) == ["a"];
    NewSingle(["a"], "x");
    assert Appended(["x"]) == "x\n";
    assert "a" + "x\n" == "ax\n";
  }

  lemma GluedSecond()
    ensures MergedContent(Some("ax\n"), ["x"]) == Some("ax\nx\n")
  {
    SplitAround("ax", "", '\n');
    SplitFree("ax", '\n');
    assert "ax\n" == "ax" + ['\n'] + "";
    assert ExistingLines(Some("ax\n")) == ["ax", ""];
    NewSingle(["ax", ""], "x");
    assert Appended(["x"]) == "x\n";
    assert "ax\n" + "x\n" == "ax\nx\n";
  }
}
