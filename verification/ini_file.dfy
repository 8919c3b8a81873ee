/** The INI parser: `load` agrees with scanning the file backwards for the last match. */
module IniFile {
  import opened Wrappers

  // The first position of '=' at or after i, or |line|
  function FindEquals(line: string, i: nat): (pos: nat)
    requires i <= |line|
    ensures i <= pos <= |line| && (pos < |line| ==> line[pos] == '=')
    ensures forall k :: i <= k < pos ==> line[k] != '='
    decreases |line| - i
  {
    if i == |line| || line[i] == '=' then i else FindEquals(line, i + 1)
  }

  // __get_section_name
  function SectionName(line: string): string
    requires line != ""
  {
    if '[' == line[0] && ']' == line[|line| - 1] then line[1..|line| - 1] else ""
  }

  // Neither empty nor a comment
  predicate Kept(line: string) { line != "" && line[0] != '#' }

  predicate IsHeader(line: string) { Kept(line) && SectionName(line) != "" }

  // What the lines of a file mean, as texts

  // [s], with some text between the brackets
  ghost predicate Header(line: string, s: string) {
    s != "" && line == "[" + s + "]"
  }

  ghost predicate AnyHeader(line: string) {
    exists s :: Header(line, s)
  }

  ghost predicate Comment(line: string) {
    exists rest :: CommentWith(line, rest)
  }

  ghost predicate CommentWith(line: string, rest: string) {
    line == "#" + rest
  }

  // line is `name=val`, cut at the first '='.
  ghost predicate Splits(line: string, name: string, val: string) {
    line == name + "=" + val && '=' !in name
  }

  // The line gives `name` the value val.
  ghost predicate Gives(line: string, name: string, val: string) {
    Splits(line, name, val) && !Comment(line) && !AnyHeader(line)
  }

  // Line i stands in `section`: the nearest header before it, or "" when there is none.
  ghost predicate InSection(lines: seq<string>, i: nat, section: string)
    requires i <= |lines|
  {
    if i == 0 then section == ""
    else if AnyHeader(lines[i - 1]) then Header(lines[i - 1], section)
    else InSection(lines, i - 1, section)
  }

  ghost predicate GivesAt(lines: seq<string>, i: nat, section: string, name: string, val: string) {
    i < |lines| && Gives(lines[i], name, val) && InSection(lines, i, section)
  }

  lemma SectionNameIs(line: string, s: string)
    requires line != "" && s != ""
    ensures SectionName(line) == s <==> Header(line, s)
  {
    if Header(line, s) {
      assert line[1..|line| - 1] == s;
    }
    if SectionName(line) == s {
      assert |line| >= 2 && line == [line[0]] + line[1..|line| - 1] + [line[|line| - 1]];
    }
  }

  lemma KeptIs(line: string)
    ensures Kept(line) <==> line != "" && !Comment(line)
  {
    if line != "" && line[0] == '#' {
      assert CommentWith(line, line[1..]);
    }
  }

  lemma IsHeaderIs(line: string)
    ensures IsHeader(line) <==> AnyHeader(line)
    ensures forall s :: Header(line, s) ==> SectionName(line) == s
  {
    forall s | Header(line, s) ensures IsHeader(line) && SectionName(line) == s {
      SectionNameIs(line, s);
    }
    if IsHeader(line) {
      SectionNameIs(line, SectionName(line));
    }
  }

  ghost predicate Assigns(line: string, name: string) {
    Kept(line) && !IsHeader(line) && exists val :: Splits(line, name, val)
  }

  lemma AssignsIs(line: string, name: string)
    ensures Assigns(line, name) <==> exists val :: Gives(line, name, val)
    ensures forall val :: Gives(line, name, val) ==> ValueOf(line) == val
  {
    KeptIs(line);
    IsHeaderIs(line);
    forall val | Splits(line, name, val) ensures ValueOf(line) == val {
      SplitsAtFirst(line, name, val);
    }
    if Assigns(line, name) {
      var val :| Splits(line, name, val);
      assert Gives(line, name, val);
    }
  }

  // The text after the first '='
  function ValueOf(line: string): string {
    var pos := FindEquals(line, 0);
    if pos < |line| then line[pos + 1..] else ""
  }

  lemma FirstEquals(name: string, val: string)
    requires '=' !in name
    ensures FindEquals(name + "=" + val, 0) == |name|
  {
    var line := name + "=" + val;
    assert line[|name|] == '=';
    assert forall k :: 0 <= k < |name| ==> line[k] == name[k];
  }

  lemma SplitsAtFirst(line: string, name: string, val: string)
    ensures Splits(line, name, val) <==>
      var pos := FindEquals(line, 0);
      pos < |line| && name == line[..pos] && val == line[pos + 1..]
  {
    if Splits(line, name, val) {
      FirstEquals(name, val);
      assert line[..|name|] == name && line[|name| + 1..] == val;
    }
    PiecesSplit(line);
  }

  lemma Rejoin(line: string, pos: nat)
    requires pos < |line| && line[pos] == '='
    ensures line == line[..pos] + "=" + line[pos + 1..]
  {
    assert "=" == [line[pos]];
  }

  lemma PiecesSplit(line: string)
    ensures var pos := FindEquals(line, 0);
            pos < |line| ==> Splits(line, line[..pos], line[pos + 1..])
  {
    var pos := FindEquals(line, 0);
    if pos < |line| {
      Rejoin(line, pos);
      assert forall k :: 0 <= k < pos ==> line[..pos][k] == line[k];
    }
  }

  // The section in force behind `lines`: that of the last header, or ""
  ghost function Section(lines: seq<string>): string {
    if lines == [] then ""
    else
      var last := lines[|lines| - 1];
      if IsHeader(last) then SectionName(last) else Section(lines[..|lines| - 1])
  }

  lemma {:induction false} SectionIs(lines: seq<string>, i: nat, section: string)
    requires i <= |lines|
    ensures Section(lines[..i]) == section <==> InSection(lines, i, section)
  {
    if i > 0 {
      assert lines[..i][..i - 1] == lines[..i - 1] && lines[..i][i - 1] == lines[i - 1];
      IsHeaderIs(lines[i - 1]);
      SectionIs(lines, i - 1, section);
    }
  }

  // Line i gives `name` a value in `section`.
  ghost predicate Matches(lines: seq<string>, i: nat, section: string, name: string)
    requires i < |lines|
  {
    Assigns(lines[i], name) && Section(lines[..i]) == section
  }

  lemma MatchesIs(lines: seq<string>, i: nat, section: string, name: string)
    requires i < |lines|
    ensures Matches(lines, i, section, name) <==> exists val :: GivesAt(lines, i, section, name, val)
    ensures forall val :: GivesAt(lines, i, section, name, val) ==> ValueOf(lines[i]) == val
  {
    AssignsIs(lines[i], name);
    SectionIs(lines, i, section);
    if Matches(lines, i, section, name) {
      var val :| Gives(lines[i], name, val);
      assert GivesAt(lines, i, section, name, val);
    }
  }

  // The value found by scanning `lines` backwards for the first match
  ghost function LastValue(lines: seq<string>, section: string, name: string): Option<string> {
    if lines == [] then None
    else
      var n := |lines| - 1;
      if Matches(lines, n, section, name) then Some(ValueOf(lines[n])) else LastValue(lines[..n], section, name)
  }

  ghost predicate NoMatch(lines: seq<string>, from: nat, section: string, name: string) {
    forall j :: from <= j < |lines| ==> !Matches(lines, j, section, name)
  }

  lemma MatchesInit(lines: seq<string>, i: nat, section: string, name: string)
    requires i < |lines| - 1
    ensures Matches(lines, i, section, name) <==> Matches(lines[..|lines| - 1], i, section, name)
  {
    assert lines[..|lines| - 1][..i] == lines[..i];
  }

  lemma NoMatchInit(lines: seq<string>, from: nat, section: string, name: string)
    requires lines != [] && NoMatch(lines, from, section, name)
    ensures NoMatch(lines[..|lines| - 1], from, section, name)
  {
    var init := lines[..|lines| - 1];
    forall j | from <= j < |init| ensures !Matches(init, j, section, name) {
      MatchesInit(lines, j, section, name);
    }
  }

  /** The backward scan finds nothing when no line matches, and otherwise the value of the
      last line that does. */
  lemma {:induction false} NoMatchNoValue(lines: seq<string>, section: string, name: string)
    requires NoMatch(lines, 0, section, name)
    ensures LastValue(lines, section, name) == None
  {
    if lines != [] {
      NoMatchInit(lines, 0, section, name);
      NoMatchNoValue(lines[..|lines| - 1], section, name);
    }
  }

  lemma {:induction false} LastMatchGivesValue(lines: seq<string>, i: nat, section: string, name: string)
    requires i < |lines| && Matches(lines, i, section, name) && NoMatch(lines, i + 1, section, name)
    ensures LastValue(lines, section, name) == Some(ValueOf(lines[i]))
  {
    if i < |lines| - 1 {
      MatchesInit(lines, i, section, name);
      NoMatchInit(lines, i + 1, section, name);
      LastMatchGivesValue(lines[..|lines| - 1], i, section, name);
    }
  }

  ghost function Filter(lines: seq<string>): seq<string> {
    if lines == [] then []
    else
      var last := lines[|lines| - 1];
      Filter(lines[..|lines| - 1]) + (if Kept(last) then [last] else [])
  }

  lemma FilterSnoc(lines: seq<string>, line: string)
    ensures Filter(lines + [line]) == Filter(lines) + (if Kept(line) then [line] else [])
  {
    assert (lines + [line])[..|lines|] == lines;
  }

  lemma {:induction false} FilterKeepsSection(lines: seq<string>)
    ensures Section(Filter(lines)) == Section(lines)
  {
    if lines != [] {
      var init, last := lines[..|lines| - 1], lines[|lines| - 1];
      FilterKeepsSection(init);
      if Kept(last) {
        assert Filter(lines)[..|Filter(lines)| - 1] == Filter(init);
      } else {
        assert Filter(lines) == Filter(init);
      }
    }
  }

  // Empty lines and comments never matter.
  lemma {:induction false} FilterKeepsLastValue(lines: seq<string>, section: string, name: string)
    ensures LastValue(Filter(lines), section, name) == LastValue(lines, section, name)
  {
    if lines != [] {
      var init, last := lines[..|lines| - 1], lines[|lines| - 1];
      FilterKeepsLastValue(init, section, name);
      FilterKeepsSection(init);
      if Kept(last) {
        assert Filter(lines)[..|Filter(lines)| - 1] == Filter(init);
      } else {
        assert Filter(lines) == Filter(init);
      }
    }
  }

  type Sections = map<string, map<string, string>>

  function Lookup(m: Sections, section: string, name: string): Option<string> {
    if section in m && name in m[section] then Some(m[section][name]) else None
  }

  function Assign(m: Sections, section: string, name: string, val: string): Sections {
    m[section := (if section in m then m[section] else map[])[name := val]]
  }

  // What is found after loading: the file's last match, else what was there before
  ghost predicate Loaded(m0: Sections, lines: seq<string>, m: Sections) {
    forall section, name ::
      Lookup(m, section, name) ==
        if LastValue(lines, section, name).Some? then LastValue(lines, section, name) else Lookup(m0, section, name)
  }

  lemma LoadedStep(m0: Sections, lines: seq<string>, m: Sections, line: string)
    requires Loaded(m0, lines, m) && Kept(line)
    ensures IsHeader(line) ==> Section(lines + [line]) == SectionName(line) && Loaded(m0, lines + [line], m)
    ensures !IsHeader(line) ==> Section(lines + [line]) == Section(lines)
    ensures !IsHeader(line) ==>
      var pos := FindEquals(line, 0);
      Loaded(m0, lines + [line],
        if pos < |line| then Assign(m, Section(lines), line[..pos], line[pos + 1..]) else m)
  {
    var lines' := lines + [line];
    assert lines'[..|lines|] == lines && lines'[|lines|] == line;
    var pos := FindEquals(line, 0);
    var m' := if !IsHeader(line) && pos < |line| then Assign(m, Section(lines), line[..pos], line[pos + 1..]) else m;
    forall section, name
      ensures Lookup(m', section, name) ==
        if LastValue(lines', section, name).Some? then LastValue(lines', section, name) else Lookup(m0, section, name)
    {
      if !IsHeader(line) && pos < |line| && name == line[..pos] {
        SplitsAtFirst(line, name, line[pos + 1..]);
      }
      if Matches(lines', |lines|, section, name) {
        var val :| Splits(line, name, val);
        SplitsAtFirst(line, name, val);
      }
    }
  }

  ghost predicate NoneGiven(lines: seq<string>, from: nat, section: string, name: string) {
    forall i: nat, val :: from <= i ==> !GivesAt(lines, i, section, name, val)
  }

  lemma NoneGivenIs(lines: seq<string>, from: nat, section: string, name: string)
    requires NoneGiven(lines, from, section, name)
    ensures NoMatch(lines, from, section, name)
  {
    forall j | from <= j < |lines| ensures !Matches(lines, j, section, name) {
      MatchesIs(lines, j, section, name);
    }
  }

  /** After a load into an empty map a lookup finds the text after the first '=' of the last
      line that gives `name` a value in `section`, and nothing when there is none. */
  lemma LookupIsLastMatch(lines: seq<string>, m: Sections, section: string, name: string)
    requires Loaded(map[], lines, m)
    ensures NoneGiven(lines, 0, section, name) ==> Lookup(m, section, name) == None
    ensures forall i: nat, val :: GivesAt(lines, i, section, name, val) && NoneGiven(lines, i + 1, section, name) ==>
      Lookup(m, section, name) == Some(val)
  {
    if NoneGiven(lines, 0, section, name) {
      NoneGivenIs(lines, 0, section, name);
      NoMatchNoValue(lines, section, name);
    }
    forall i: nat, val | GivesAt(lines, i, section, name, val) && NoneGiven(lines, i + 1, section, name)
      ensures LastValue(lines, section, name) == Some(val)
    {
      NoneGivenIs(lines, i + 1, section, name);
      MatchesIs(lines, i, section, name);
      LastMatchGivesValue(lines, i, section, name);
    }
  }

  class Ini {
    var sectionMap: Sections

    constructor ()
      ensures sectionMap == map[]
    {
      sectionMap := map[];
    }

    // __get_name_and_val
    static method GetNameAndVal(line: string) returns (ok: bool, name: string, val: string)
      ensures ok ==> Splits(line, name, val)
      ensures !ok <==> '=' !in line
      ensures var pos := FindEquals(line, 0);
              if pos < |line| then ok && name == line[..pos] && val == line[pos + 1..] else !ok
    {
      ok, name, val := false, "", "";
      var pos := FindEquals(line, 0);
      if pos == |line| {
        return;
      }
      name := line[..pos];
      val := line[pos + 1..];
      ok := true;
      SplitsAtFirst(line, name, val);
    }

    // __parser
    method Parse(lineVector: seq<string>)
      requires forall i :: 0 <= i < |lineVector| ==> Kept(lineVector[i])
      modifies this
      ensures Loaded(old(sectionMap), lineVector, sectionMap)
    {
      var curSectionName := "";
      var i := 0;
      while i < |lineVector|
        invariant i <= |lineVector| && curSectionName == Section(lineVector[..i])
        invariant Loaded(old(sectionMap), lineVector[..i], sectionMap)
      {
        var line := lineVector[i];
        LoadedStep(old(sectionMap), lineVector[..i], sectionMap, line);
        assert lineVector[..i + 1] == lineVector[..i] + [line];
        var sectionName := SectionName(line);
        if sectionName != "" {
          curSectionName := sectionName;
        } else {
          var ok, name, val := GetNameAndVal(line);
          if ok {
            sectionMap := Assign(sectionMap, curSectionName, name, val);
          }
        }
        i := i + 1;
      }
      assert lineVector[..i] == lineVector;
    }

    /** load: afterwards every lookup finds the last match in the file, and what it found
        before where the file has none. */
    method Load(lines: seq<string>)
      modifies this
      ensures Loaded(old(sectionMap), lines, sectionMap)
    {
      var lineVector: seq<string> := [];
      var i := 0;
      while i < |lines|
        invariant i <= |lines| && lineVector == Filter(lines[..i])
        invariant forall k :: 0 <= k < |lineVector| ==> Kept(lineVector[k])
        invariant sectionMap == old(sectionMap)
      {
        FilterSnoc(lines[..i], lines[i]);
        assert lines[..i + 1] == lines[..i] + [lines[i]];
        if lines[i] != "" && '#' != lines[i][0] {
          lineVector := lineVector + [lines[i]];
        }
        i := i + 1;
      }
      assert lines[..i] == lines;
      Parse(lineVector);
      forall section, name ensures LastValue(lineVector, section, name) == LastValue(lines, section, name) {
        FilterKeepsLastValue(lines, section, name);
      }
    }

    // get_str
    method GetStr(section: string, name: string) returns (val: string)
      ensures val == match Lookup(sectionMap, section, name) case Some(v) => v case None => ""
    {
      if section in sectionMap {
        var r := sectionMap[section];
        if name in r {
          return r[name];
        }
      }
      return "";
    }
  }

  /** A file of a header and a line below it: the line's value is found under both names. */
  method HeaderAndLine(section: string, line: string, name: string, val: string) returns (found: string)
    requires section != "" && Gives(line, name, val)
    ensures found == val
  {
    var ini := new Ini();
    var lines := ["[" + section + "]", line];
    ini.Load(lines);
    assert Header(lines[0], section) && GivesAt(lines, 1, section, name, val);
    LookupIsLastMatch(lines, ini.sectionMap, section, name);
    found := ini.GetStr(section, name);
  }

  lemma PlainStart(line: string)
    requires line != "" && line[0] != '[' && line[0] != '#'
    ensures !Comment(line) && !AnyHeader(line)
  {
  }

  // [net] and ip=1
  method NetIp() returns (ip: string)
    ensures ip == "1"
  {
    var line := "ip=1";
    assert Splits(line, "ip", "1");
    PlainStart(line);
    ip := HeaderAndLine("net", line, "ip", "1");
  }
}
