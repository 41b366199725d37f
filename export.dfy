/**
 * The two exports of the grouping panel: the CSV file (a header line, then
 * one `group id,member name` row per member with the name quoted as section 2
 * of RFC 4180 asks when it holds a comma or a double quote), and the
 * clipboard text (a `Group k:` line per group followed by `- name` lines,
 * with a blank line between groups).
 */
module GroupExport {
  import opened Types
  import opened Text
  import opened Seqs

  /** The first line of every CSV file, without its line break. */
  const CSV_HEADER_LINE: string := "Group Number,Member Name"
  /** The text a CSV file starts with. */
  const CSV_HEADER: string := CSV_HEADER_LINE + "\n"

  // -------------------------------------------------------------- escaping

  /** Every double quote of `s` is one of an adjacent pair, as inside a quoted field. */
  predicate QuotesPaired(s: string)
    decreases |s|
  {
    if s == [] then true
    else if s[0] == '"' then |s| >= 2 && s[1] == '"' && QuotesPaired(s[2..])
    else QuotesPaired(s[1..])
  }

  /** `s.replace(/"/g, '""')`: every double quote doubled, so the quotes of the result come in pairs. */
  function DoubleQuotes(s: string): (r: string)
    ensures QuotesPaired(r)
  {
    if s == [] then []
    else
      var rest := DoubleQuotes(s[1..]);
      if s[0] == '"' then
        assert ("\"\"" + rest)[2..] == rest;
        "\"\"" + rest
      else
        assert ([s[0]] + rest)[1..] == rest;
        [s[0]] + rest
  }

  /** Doubling quotes adds and removes no other character. */
  lemma {:induction false} DoubleQuotesKeeps(s: string, c: char)
    requires c != '"'
    ensures c in DoubleQuotes(s) <==> c in s
  {
    if s != [] {
      DoubleQuotesKeeps(s[1..], c);
      assert s == [s[0]] + s[1..];
    }
  }

  /** Reads doubled quotes back as single ones. */
  function UndoubleQuotes(s: string): string {
    if s == [] then []
    else if |s| >= 2 && s[0] == '"' && s[1] == '"' then ['"'] + UndoubleQuotes(s[2..])
    else [s[0]] + UndoubleQuotes(s[1..])
  }

  /** Undoubling undoes doubling. */
  lemma {:induction false} UndoubleDoubleQuotes(s: string)
    ensures UndoubleQuotes(DoubleQuotes(s)) == s
  {
    if s != [] {
      var rest := DoubleQuotes(s[1..]);
      assert DoubleQuotes(s) == (if s[0] == '"' then "\"\"" else [s[0]]) + rest;
      UndoubleDoubleQuotes(s[1..]);
      if s[0] == '"' {
        assert ("\"\"" + rest)[2..] == rest;
      } else {
        assert ([s[0]] + rest)[1..] == rest;
      }
      assert s == [s[0]] + s[1..];
    }
  }

  /**
   * The CSV field for a member name: a name holding a comma or a double quote
   * is enclosed in double quotes with its inner quotes doubled; any other name,
   * one holding a line break included, is written as it is.
   */
  function EscapeField(name: string): (field: string)
    ensures ',' !in name && '"' !in name ==> field == name
    ensures ',' in name || '"' in name ==>
      && |field| >= 2 && field[0] == '"' && field[|field| - 1] == '"'
      && QuotesPaired(field[1..|field| - 1])
      && UndoubleQuotes(field[1..|field| - 1]) == name
  {
    if ',' in name || '"' in name then
      var inner := DoubleQuotes(name);
      UndoubleDoubleQuotes(name);
      assert (['"'] + inner + ['"'])[1..|inner| + 1] == inner;
      ['"'] + inner + ['"']
    else name
  }

  /** Escaping neither adds nor removes a line break. */
  lemma EscapeKeepsLineBreaks(name: string)
    ensures '\n' in EscapeField(name) <==> '\n' in name
  {
    DoubleQuotesKeeps(name, '\n');
  }

  /** Reads a CSV field back: a quoted field loses its quotes and has its doubled quotes undone. */
  function UnescapeField(field: string): string {
    if |field| >= 2 && field[0] == '"' && field[|field| - 1] == '"' then UndoubleQuotes(field[1..|field| - 1])
    else field
  }

  /** Unescaping returns the original name. */
  lemma EscapeRoundTrip(name: string)
    ensures UnescapeField(EscapeField(name)) == name
  {
    if ',' in name || '"' in name {
      var inner := DoubleQuotes(name);
      var field := ['"'] + inner + ['"'];
      assert EscapeField(name) == field;
      assert field[1..|field| - 1] == inner;
      UndoubleDoubleQuotes(name);
      assert UnescapeField(field) == UndoubleQuotes(inner);
    } else {
      assert EscapeField(name) == name;
      assert name == [] || name[0] != '"';
    }
  }

  // ------------------------------------------------------------------- CSV

  /** One data row of the CSV file: a group id and a member name. */
  datatype Entry = Entry(groupId: int, name: string)

  /** A row without its line break. */
  function RowLine(e: Entry): string {
    IntToString(e.groupId) + "," + EscapeField(e.name)
  }

  /** `${group.id},${safeName}\n`. */
  function CsvRow(groupId: int, name: string): string {
    RowLine(Entry(groupId, name)) + "\n"
  }

  /** The rows of one group's members, in member order. */
  function MemberEntries(groupId: int, members: seq<Person>): seq<Entry> {
    seq(|members|, k requires 0 <= k < |members| => Entry(groupId, members[k].name))
  }

  /** The rows of all groups, group after group. */
  function Entries(groups: seq<Group>): seq<Entry> {
    if groups == [] then []
    else Entries(groups[..|groups| - 1]) + MemberEntries(groups[|groups| - 1].id, groups[|groups| - 1].members)
  }

  /** The rows as lines. */
  function RowLines(es: seq<Entry>): seq<string> {
    Map(es, RowLine)
  }

  /** Lines, each ended by a line break. */
  function Terminated(lines: seq<string>): string {
    if lines == [] then "" else Terminated(lines[..|lines| - 1]) + lines[|lines| - 1] + "\n"
  }

  /** The rows as text. */
  function RowsText(es: seq<Entry>): string {
    Terminated(RowLines(es))
  }

  /** The CSV file for the groups. */
  function CsvText(groups: seq<Group>): string {
    CSV_HEADER + RowsText(Entries(groups))
  }

  lemma MemberEntriesSnoc(groupId: int, members: seq<Person>, mi: nat)
    requires mi < |members|
    ensures MemberEntries(groupId, members[..mi + 1]) == MemberEntries(groupId, members[..mi]) + [Entry(groupId, members[mi].name)]
  {
  }

  /** The rows of the first `gi + 1` groups: those of the first `gi`, then group `gi`'s. */
  lemma EntriesSnoc(groups: seq<Group>, gi: nat)
    requires gi < |groups|
    ensures Entries(groups[..gi + 1]) == Entries(groups[..gi]) + MemberEntries(groups[gi].id, groups[gi].members)
  {
    assert groups[..gi + 1][..gi] == groups[..gi];
  }

  /** Writing one more member's row. */
  lemma RowStep(es: seq<Entry>, groupId: int, members: seq<Person>, mi: nat)
    requires mi < |members|
    ensures RowsText(es + MemberEntries(groupId, members[..mi + 1]))
      == RowsText(es + MemberEntries(groupId, members[..mi])) + CsvRow(groupId, members[mi].name)
  {
    var e := Entry(groupId, members[mi].name);
    MemberEntriesSnoc(groupId, members, mi);
    assert es + MemberEntries(groupId, members[..mi + 1]) == (es + MemberEntries(groupId, members[..mi])) + [e];
    RowsTextSnoc(es + MemberEntries(groupId, members[..mi]), e);
  }

  lemma RowsTextSnoc(es: seq<Entry>, e: Entry)
    ensures RowsText(es + [e]) == RowsText(es) + CsvRow(e.groupId, e.name)
  {
    MapSnoc(es, e, RowLine);
    var lines := RowLines(es) + [RowLine(e)];
    assert lines[..|lines| - 1] == RowLines(es);
  }

  /** The first comma-separated cell is a decimal group id; the rest is the field. */
  function ParseRow(line: string): Option<Entry> {
    var i := IndexOf(line, ',');
    if i == |line| || i == 0 || !(forall k :: 0 <= k < i ==> IsDigit(line[k])) then None
    else Some(Entry(ParseDecimal(line[..i]), UnescapeField(line[i + 1..])))
  }

  /** Every line read by `parse`, or nothing when one of them does not read. */
  function ParseAll<T>(lines: seq<string>, parse: string -> Option<T>): Option<seq<T>> {
    if lines == [] then Some([])
    else
      match (ParseAll(lines[..|lines| - 1], parse), parse(lines[|lines| - 1]))
      case (Some(xs), Some(x)) => Some(xs + [x])
      case _ => None
  }

  /**
   * Reads a CSV file back: the header line, then one row per line, and
   * nothing after the last line break.
   */
  function ParseCsv(text: string): Option<seq<Entry>> {
    ParseCsvLines(Split(text, '\n'))
  }

  /** The header line, the rows, and an empty last line. */
  function ParseCsvLines(lines: seq<string>): Option<seq<Entry>> {
    if |lines| >= 2 && lines[0] == CSV_HEADER_LINE && lines[|lines| - 1] == "" then ParseAll(lines[1..|lines| - 1], ParseRow)
    else None
  }

  /** Group ids are not negative and no member name holds a line break. */
  predicate ExportSafe(groups: seq<Group>) {
    forall k :: 0 <= k < |groups| ==>
      groups[k].id >= 0 && forall m :: 0 <= m < |groups[k].members| ==> '\n' !in groups[k].members[m].name
  }

  /** An integer's decimal rendering is digits, after a minus sign for a negative one. */
  lemma IntToStringChars(i: int)
    ensures forall c :: c in IntToString(i) ==> c == '-' || IsDigit(c)
  {
  }

  lemma {:induction false} EntriesSafe(groups: seq<Group>)
    requires ExportSafe(groups)
    ensures forall i :: 0 <= i < |Entries(groups)| ==> Entries(groups)[i].groupId >= 0 && '\n' !in Entries(groups)[i].name
  {
    if groups != [] {
      var init := groups[..|groups| - 1];
      assert ExportSafe(init) by {
        forall k | 0 <= k < |init| ensures init[k] == groups[k] { }
      }
      EntriesSafe(init);
    }
  }

  /** A row line reads back as its entry. */
  lemma RowLineParses(e: Entry)
    requires e.groupId >= 0
    ensures ParseRow(RowLine(e)) == Some(e)
  {
    var digits := NatToString(e.groupId);
    var field := EscapeField(e.name);
    var line := RowLine(e);
    assert line == digits + [','] + field;
    var i := IndexOf(line, ',');
    assert line[|digits|] == ',';
    assert line[..|digits|] == digits;
    assert ',' !in digits;
    assert i == |digits|;
    assert line[..i] == digits;
    assert line[i + 1..] == field;
    EscapeRoundTrip(e.name);
  }

  /** A row of a name without a line break is a single line. */
  lemma RowLineOneLine(e: Entry)
    requires '\n' !in e.name
    ensures '\n' !in RowLine(e)
  {
    IntToStringChars(e.groupId);
    EscapeKeepsLineBreaks(e.name);
  }

  /** Lines rendered from values that `parse` reads back read back as those values. */
  lemma {:induction false} ParseAllRendered<T>(xs: seq<T>, render: T -> string, parse: string -> Option<T>)
    requires forall i :: 0 <= i < |xs| ==> parse(render(xs[i])) == Some(xs[i])
    ensures ParseAll(Map(xs, render), parse) == Some(xs)
  {
    if xs != [] {
      var init := xs[..|xs| - 1];
      var lines := Map(xs, render);
      assert lines[..|lines| - 1] == Map(init, render);
      ParseAllRendered(init, render, parse);
      assert xs == init + [xs[|xs| - 1]];
    }
  }

  /** A first line and terminated lines are those lines joined by line breaks, with a final line break. */
  lemma {:induction false} TerminatedAsJoin(first: string, lines: seq<string>)
    ensures first + "\n" + Terminated(lines) == Join([first] + lines, "\n") + "\n"
  {
    if lines == [] {
      assert [first] + lines == [first];
    } else {
      var init := lines[..|lines| - 1];
      var last := lines[|lines| - 1];
      TerminatedAsJoin(first, init);
      assert [first] + lines == ([first] + init) + [last];
      JoinAppend([first] + init, [last], "\n");
    }
  }

  /**
   * The CSV file reads back as one row per member, in group order, as long as
   * no group id is negative and no name holds a line break.
   */
  lemma CsvRoundTrip(groups: seq<Group>)
    requires ExportSafe(groups)
    ensures ParseCsv(CsvText(groups)) == Some(Entries(groups))
  {
    var es := Entries(groups);
    EntriesSafe(groups);
    var lines := RowLines(es);
    forall i | 0 <= i < |lines| ensures '\n' !in lines[i] {
      RowLineOneLine(es[i]);
    }
    CsvLines(lines);
    forall i | 0 <= i < |es| ensures ParseRow(RowLine(es[i])) == Some(es[i]) {
      RowLineParses(es[i]);
    }
    ParseAllRendered(es, RowLine, ParseRow);
  }

  /** The header is a single line. */
  lemma HeaderOneLine()
    ensures '\n' !in CSV_HEADER_LINE
  {
    forall i | 0 <= i < |CSV_HEADER_LINE| ensures CSV_HEADER_LINE[i] != '\n' { }
  }

  /** The header and terminated one-line rows split back into the header, the rows and an empty last line. */
  lemma CsvLines(lines: seq<string>)
    requires forall i :: 0 <= i < |lines| ==> '\n' !in lines[i]
    ensures Split(CSV_HEADER + Terminated(lines), '\n') == [CSV_HEADER_LINE] + lines + [""]
  {
    var parts := [CSV_HEADER_LINE] + lines + [""];
    CsvAsJoin(lines);
    CsvPartsOneLine(lines);
    SplitJoin(parts, '\n');
  }

  /** The CSV text is the header, the rows and an empty last line, joined by line breaks. */
  lemma CsvAsJoin(lines: seq<string>)
    ensures CSV_HEADER + Terminated(lines) == Join([CSV_HEADER_LINE] + lines + [""], "\n")
  {
    TerminatedAsJoin(CSV_HEADER_LINE, lines);
    JoinAppend([CSV_HEADER_LINE] + lines, [""], "\n");
  }

  /** The header, one-line rows and an empty line: none holds a line break. */
  lemma CsvPartsOneLine(lines: seq<string>)
    requires forall i :: 0 <= i < |lines| ==> '\n' !in lines[i]
    ensures var parts := [CSV_HEADER_LINE] + lines + [""];
      forall i :: 0 <= i < |parts| ==> '\n' !in parts[i]
  {
    var parts := [CSV_HEADER_LINE] + lines + [""];
    HeaderOneLine();
    forall i | 0 <= i < |parts| ensures '\n' !in parts[i] {
      if 1 <= i <= |lines| {
        assert parts[i] == lines[i - 1];
      }
    }
  }

  /** The rows of one group with one member: a single row. */
  lemma SingleMemberRows(id: int, p: Person)
    ensures RowsText(Entries([Group(id, [p])])) == RowLine(Entry(id, p.name)) + "\n"
  {
    var groups := [Group(id, [p])];
    assert groups[..0] == [];
    var es := [Entry(id, p.name)];
    var m := MemberEntries(id, [p]);
    assert |m| == 1 && m[0] == Entry(id, [p][0].name);
    assert Entries(groups) == [] + m == es;
    var lines := Map(es, RowLine);
    assert |lines| == 1 && lines[0] == RowLine(es[0]);
    assert lines[..0] == [];
    assert Terminated(lines) == Terminated([]) + lines[0] + "\n";
  }

  /** Three lines and an empty one, joined by line breaks. */
  lemma JoinFour(a: string, b: string, c: string)
    ensures Join([a, b, c, ""], "\n") == (a + "\n") + ((b + "\n" + c) + "\n")
  {
    var d := "";
    var parts := [a, b, c, d];
    assert parts[1..] == [b, c, d] && [b, c, d][1..] == [c, d] && [c, d][1..] == [d];
    assert Join([d], "\n") == d;
    assert Join([c, d], "\n") == c + "\n" + d;
    assert Join([b, c, d], "\n") == b + "\n" + (c + "\n" + d);
  }

  /** When one line does not read, the lines do not read. */
  lemma {:induction false} ParseAllFails<T>(lines: seq<string>, parse: string -> Option<T>, k: nat)
    requires k < |lines| && parse(lines[k]) == None
    ensures ParseAll(lines, parse) == None
  {
    if k < |lines| - 1 {
      ParseAllFails(lines[..|lines| - 1], parse, k);
    }
  }

  /** Lines one of which is no row do not read back. */
  lemma BadLineBreaksFile(lines: seq<string>, k: nat)
    requires 1 <= k < |lines| - 1 && ParseRow(lines[k]) == None
    ensures ParseCsvLines(lines) == None
  {
    var rows := lines[1..|lines| - 1];
    assert rows[k - 1] == lines[k];
    ParseAllFails(rows, ParseRow, k - 1);
  }

  /** The file of a single member whose name is `before`, a line break and `after`. */
  lemma LineBreakFile(id: int, pid: string, before: string, after: string)
    requires ',' !in before + after && '"' !in before + after
    ensures CsvText([Group(id, [Person(pid, before + "\n" + after)])])
      == Join([CSV_HEADER_LINE, IntToString(id) + "," + before, after, ""], "\n")
  {
    var name := before + "\n" + after;
    assert ',' !in name && '"' !in name by {
      assert forall c :: c in name ==> c in before + after || c == '\n';
    }
    var row := IntToString(id) + "," + before;
    assert EscapeField(name) == name;
    assert RowLine(Entry(id, name)) == row + "\n" + after;
    SingleMemberRows(id, Person(pid, name));
    JoinFour(CSV_HEADER_LINE, row, after);
  }

  /**
   * A name with a line break but no comma or double quote is written
   * unquoted, so its row falls apart into two lines, and the second one,
   * having no comma, is no row: the file no longer reads back.
   */
  lemma LineBreakNameBreaksRow(id: int, pid: string, before: string, after: string)
    requires ',' !in before + after && '"' !in before + after && '\n' !in before + after
    ensures EscapeField(before + "\n" + after) == before + "\n" + after
    ensures ParseCsv(CsvText([Group(id, [Person(pid, before + "\n" + after)])])) == None
  {
    LineBreakFile(id, pid, before, after);
    var row := IntToString(id) + "," + before;
    var parts := [CSV_HEADER_LINE, row, after, ""];
    LineBreakPieces(id, before, after);
    HeaderOneLine();
    BadLineBreaksFile(parts, 2);
    SplitJoin(parts, '\n');
  }

  /** The pieces of a broken row: neither holds a line break, and the second holds no comma. */
  lemma LineBreakPieces(id: int, before: string, after: string)
    requires ',' !in before + after && '\n' !in before + after
    ensures '\n' !in IntToString(id) + "," + before && '\n' !in after
    ensures ParseRow(after) == None
  {
    IntToStringChars(id);
    var row := IntToString(id) + "," + before;
    assert forall c :: c in row ==> c in IntToString(id) || c == ',' || c in before + after;
    assert forall c :: c in after ==> c in before + after;
    assert after[..|after|] == after;
  }

  // --------------------------------------------------------------- clipboard

  /** `- ${m.name}`. */
  function MemberLine(p: Person): string {
    "- " + p.name
  }

  /** `Group ${g.id}:` */
  function Heading(g: Group): string {
    "Group " + IntToString(g.id) + ":"
  }

  /** `Group ${g.id}:\n` followed by the member lines joined by line breaks. */
  function GroupBlock(g: Group): string {
    Heading(g) + "\n" + Join(Map(g.members, MemberLine), "\n")
  }

  /** The clipboard text: the group blocks joined by blank lines. */
  function CopyText(groups: seq<Group>): string {
    Join(Map(groups, GroupBlock), "\n\n")
  }

  /** The lines of one block: the heading, then a line per member (one empty line for an empty group). */
  function BlockLines(g: Group): (r: seq<string>)
    ensures |r| >= 2
  {
    [Heading(g)] + (if g.members == [] then [""] else Map(g.members, MemberLine))
  }

  /** The lines of every block, with an empty line between consecutive blocks. */
  function Paragraphs<T>(xs: seq<T>, lines: T -> seq<string>): seq<string> {
    if xs == [] then []
    else if |xs| == 1 then lines(xs[0])
    else lines(xs[0]) + [""] + Paragraphs(xs[1..], lines)
  }

  /** The lines of the clipboard text. */
  function CopyLines(groups: seq<Group>): seq<string> {
    Paragraphs(groups, BlockLines)
  }

  lemma BlockAsJoin(g: Group)
    ensures GroupBlock(g) == Join(BlockLines(g), "\n")
  {
    var lines := BlockLines(g);
    assert lines[1..] == (if g.members == [] then [""] else Map(g.members, MemberLine));
  }

  /** Blocks joined by blank lines are the blocks' lines joined by line breaks, with empty lines between blocks. */
  lemma {:induction false} JoinParagraphs<T>(xs: seq<T>, block: T -> string, lines: T -> seq<string>)
    requires xs != []
    requires forall i :: 0 <= i < |xs| ==> |lines(xs[i])| >= 1 && block(xs[i]) == Join(lines(xs[i]), "\n")
    ensures |Paragraphs(xs, lines)| >= 1
    ensures Join(Map(xs, block), "\n\n") == Join(Paragraphs(xs, lines), "\n")
  {
    if |xs| > 1 {
      var rest := xs[1..];
      assert Map(xs, block)[1..] == Map(rest, block);
      JoinParagraphs(rest, block, lines);
      var tail := Paragraphs(rest, lines);
      assert Join([""] + tail, "\n") == "" + "\n" + Join(tail, "\n") by {
        assert ([""] + tail)[1..] == tail;
      }
      JoinAppend(lines(xs[0]), [""] + tail, "\n");
      assert lines(xs[0]) + [""] + tail == lines(xs[0]) + ([""] + tail);
    }
  }

  /** The paragraphs hold no line break when no block line does. */
  lemma {:induction false} ParagraphsOneLine<T>(xs: seq<T>, lines: T -> seq<string>)
    requires forall i, j :: 0 <= i < |xs| && 0 <= j < |lines(xs[i])| ==> '\n' !in lines(xs[i])[j]
    ensures forall k :: 0 <= k < |Paragraphs(xs, lines)| ==> '\n' !in Paragraphs(xs, lines)[k]
  {
    if |xs| > 1 {
      var rest := xs[1..];
      assert forall i :: 0 <= i < |rest| ==> rest[i] == xs[i + 1];
      ParagraphsOneLine(rest, lines);
    }
  }

  /** No member name holds a line break. */
  predicate NamesOneLine(groups: seq<Group>) {
    forall k :: 0 <= k < |groups| ==> forall m :: 0 <= m < |groups[k].members| ==> '\n' !in groups[k].members[m].name
  }

  /** A block's lines hold no line break when its names hold none. */
  lemma BlockLinesOneLine(g: Group)
    requires forall m :: 0 <= m < |g.members| ==> '\n' !in g.members[m].name
    ensures forall j :: 0 <= j < |BlockLines(g)| ==> '\n' !in BlockLines(g)[j]
  {
    IntToStringChars(g.id);
    var b := BlockLines(g);
    forall j | 1 <= j < |b| && g.members != [] ensures '\n' !in b[j] {
      assert b[j] == MemberLine(g.members[j - 1]);
    }
  }

  /**
   * The clipboard text, split at its line breaks, is each group's heading
   * followed by one `- name` line per member, with an empty line between groups.
   */
  lemma CopyTextLines(groups: seq<Group>)
    requires groups != []
    requires NamesOneLine(groups)
    ensures Split(CopyText(groups), '\n') == CopyLines(groups)
  {
    forall i | 0 <= i < |groups| ensures |BlockLines(groups[i])| >= 1 && GroupBlock(groups[i]) == Join(BlockLines(groups[i]), "\n") {
      BlockAsJoin(groups[i]);
    }
    JoinParagraphs(groups, GroupBlock, BlockLines);
    forall i | 0 <= i < |groups| ensures forall j :: 0 <= j < |BlockLines(groups[i])| ==> '\n' !in BlockLines(groups[i])[j] {
      BlockLinesOneLine(groups[i]);
    }
    ParagraphsOneLine(groups, BlockLines);
    SplitJoin(CopyLines(groups), '\n');
  }
}
