/**
 The hosts file editor: parsing and printing of lines, adding host names to an
 ip, and cleaning up the generated section.
 */
module HostsFile {

  // -------------------------------------------------------------------- white space

  /** unicode.IsSpace. */
  predicate IsSpace(c: char) {
    var n := c as int;
    9 <= n <= 13 || n == 32 || n == 0x85 || n == 0xA0 || n == 0x1680 || 0x2000 <= n <= 0x200a ||
    n == 0x2028 || n == 0x2029 || n == 0x202f || n == 0x205f || n == 0x3000
  }

  /** Among the ASCII characters these six are white space. */
  lemma AsciiSpaces(c: char)
    requires c as int < 128
    ensures IsSpace(c) <==> c in {'\t', '\n', '\U{B}', '\U{C}', '\r', ' '}
  {
  }

  /** A scan of a line: its words so far, and whether the last word is still open. */
  datatype Scanned = Scanned(words: seq<string>, open: bool)

  /** One more character: white space ends a word, anything else extends or starts one. */
  function Feed(r: Scanned, c: char): (f: Scanned)
    requires r.open ==> r.words != []
    ensures f.open ==> f.words != []
  {
    if IsSpace(c) then r.(open := false)
    else if r.open then
      Scanned(r.words[..|r.words| - 1] + [r.words[|r.words| - 1] + [c]], true)
    else
      Scanned(r.words + [[c]], true)
  }

  function Scan(s: string): (r: Scanned)
    ensures r.open ==> r.words != []
  {
    if s == [] then Scanned([], false) else Feed(Scan(s[..|s| - 1]), s[|s| - 1])
  }

  lemma ScanNext(s: string, c: char)
    ensures Scan(s + [c]) == Feed(Scan(s), c)
  {
    assert (s + [c])[..|s|] == s;
  }

  /** strings.Fields. */
  function Fields(s: string): seq<string> {
    Scan(s).words
  }

  function TrimLeft(s: string): string {
    if s != [] && IsSpace(s[0]) then TrimLeft(s[1..]) else s
  }

  /** The first visible character is '#'. */
  predicate IsComment(raw: string) {
    var t := TrimLeft(raw);
    t != [] && t[0] == '#'
  }

  /** A non-empty word without white space. */
  predicate Token(w: string) {
    w != [] && forall i :: 0 <= i < |w| ==> !IsSpace(w[i])
  }

  ghost predicate Tokens(ws: seq<string>) {
    forall i :: 0 <= i < |ws| ==> Token(ws[i])
  }

  lemma {:induction false} FieldsAreTokens(s: string)
    ensures Tokens(Fields(s))
  {
    if s != [] {
      FieldsAreTokens(s[..|s| - 1]);
    }
  }

  /** A blank and a token add one word. */
  lemma {:induction false} ScanToken(s: string, w: string, n: nat)
    requires Token(w) && 0 < n <= |w|
    ensures Scan(s + " " + w[..n]) == Scanned(Fields(s) + [w[..n]], true)
  {
    var before := s + " " + w[..n - 1];
    assert w[..n] == w[..n - 1] + [w[n - 1]];
    assert s + " " + w[..n] == before + [w[n - 1]];
    ScanNext(before, w[n - 1]);
    if n == 1 {
      assert before == s + [' '];
      ScanNext(s, ' ');
    } else {
      ScanToken(s, w, n - 1);
    }
  }

  lemma FieldsAppend(s: string, w: string)
    requires Token(w)
    ensures Fields(s + " " + w) == Fields(s) + [w]
  {
    ScanToken(s, w, |w|);
    assert w[..|w|] == w;
  }

  lemma {:induction false} ScanFirst(w: string, n: nat)
    requires Token(w) && 0 < n <= |w|
    ensures Scan(w[..n]) == Scanned([w[..n]], true)
  {
    assert w[..n] == w[..n - 1] + [w[n - 1]];
    ScanNext(w[..n - 1], w[n - 1]);
    if n > 1 {
      ScanFirst(w, n - 1);
    }
  }

  lemma {:induction false} OpenExactly(s: string)
    ensures Scan(s).open <==> s != [] && !IsSpace(s[|s| - 1])
  {
  }

  /** How one more character changes the words: these equations determine strings.Fields. */
  lemma FieldsNext(s: string, c: char)
    ensures Fields("") == []
    ensures IsSpace(c) ==> Fields(s + [c]) == Fields(s)
    ensures !IsSpace(c) && (s == [] || IsSpace(s[|s| - 1])) ==> Fields(s + [c]) == Fields(s) + [[c]]
    ensures !IsSpace(c) && s != [] && !IsSpace(s[|s| - 1]) ==>
      var n := |Fields(s)| - 1;
      n >= 0 && Fields(s + [c]) == Fields(s)[..n] + [Fields(s)[n] + [c]]
  {
    OpenExactly(s);
    ScanNext(s, c);
  }

  lemma {:induction false} TrimLeftNext(s: string, c: char)
    ensures TrimLeft(s + [c]) == if TrimLeft(s) != [] then TrimLeft(s) + [c] else if IsSpace(c) then [] else [c]
  {
    if s == [] {
      assert s + [c] == [c] && [c][1..] == [];
    } else if IsSpace(s[0]) {
      TrimLeftNext(s[1..], c);
      assert (s + [c])[1..] == s[1..] + [c];
    }
  }

  /** The first visible character of a line begins its first word. */
  lemma {:induction false} FirstVisible(s: string)
    ensures Fields(s) == [] <==> TrimLeft(s) == []
    ensures Fields(s) != [] ==> Fields(s)[0] != [] && Fields(s)[0][0] == TrimLeft(s)[0]
  {
    if s != [] {
      var n := |s| - 1;
      FirstVisible(s[..n]);
      assert s == s[..n] + [s[n]];
      TrimLeftNext(s[..n], s[n]);
      FieldsAreTokens(s[..n]);
    }
  }

  /** A line is a comment exactly when its first word starts with '#'. */
  lemma CommentExactly(raw: string)
    ensures IsComment(raw) <==> Fields(raw) != [] && Fields(raw)[0] != [] && Fields(raw)[0][0] == '#'
  {
    FirstVisible(raw);
  }

  // --------------------------------------------------------------------------- lines

  datatype HostsLine = HostsLine(ip: string, hosts: seq<string>, raw: string, err: bool)

  /** NewHostsLine; validIP is net.ParseIP succeeding. */
  function NewHostsLine(raw: string, validIP: string -> bool): HostsLine {
    var fields := Fields(raw);
    if fields == [] || IsComment(raw) then HostsLine("", [], raw, false)
    else HostsLine(fields[0], fields[1..], raw, !validIP(fields[0]))
  }

  /** A comment or an empty line holds no entry, whatever it says, and is no error. */
  lemma CommentHoldsNothing(raw: string, validIP: string -> bool)
    requires Fields(raw) == [] || "#" <= Fields(raw)[0]
    ensures NewHostsLine(raw, validIP) == HostsLine("", [], raw, false)
  {
    CommentExactly(raw);
  }

  /** Any other line holds its first word and the hosts after it. */
  lemma EntryHoldsWords(raw: string, ip: string, hosts: seq<string>, validIP: string -> bool)
    requires Fields(raw) == [ip] + hosts && !("#" <= ip)
    ensures NewHostsLine(raw, validIP) == HostsLine(ip, hosts, raw, !validIP(ip))
  {
    FieldsAreTokens(raw);
    CommentExactly(raw);
    assert Fields(raw)[0] == ip && Fields(raw)[1..] == hosts;
    assert ip[0] == '#' ==> "#" <= ip;
  }

  function RawLine(ip: string, hosts: seq<string>): string {
    if hosts == [] then ip else RawLine(ip, hosts[..|hosts| - 1]) + " " + hosts[|hosts| - 1]
  }

  method BuildRawLine(ip: string, hosts: seq<string>) returns (output: string)
    ensures output == RawLine(ip, hosts)
  {
    output := ip;
    for i := 0 to |hosts|
      invariant output == RawLine(ip, hosts[..i])
    {
      assert hosts[..i + 1][..i] == hosts[..i];
      output := output + " " + hosts[i];
    }
    assert hosts[..|hosts|] == hosts;
  }

  ghost predicate Address(ip: string) {
    Token(ip) && ip[0] != '#'
  }

  lemma {:induction false} RawFields(ip: string, hosts: seq<string>)
    requires Token(ip) && Tokens(hosts)
    ensures Fields(RawLine(ip, hosts)) == [ip] + hosts && ip <= RawLine(ip, hosts)
  {
    if hosts == [] {
      ScanFirst(ip, |ip|);
      assert ip[..|ip|] == ip;
    } else {
      var n := |hosts| - 1;
      RawFields(ip, hosts[..n]);
      FieldsAppend(RawLine(ip, hosts[..n]), hosts[n]);
      assert [ip] + hosts == [ip] + hosts[..n] + [hosts[n]];
    }
  }

  /** Parsing a printed line gives the address and the hosts back. */
  lemma PrintParse(ip: string, hosts: seq<string>, validIP: string -> bool)
    requires Address(ip) && Tokens(hosts)
    ensures NewHostsLine(RawLine(ip, hosts), validIP) == HostsLine(ip, hosts, RawLine(ip, hosts), !validIP(ip))
    ensures !IsComment(RawLine(ip, hosts)) && RawLine(ip, hosts) != ""
  {
    RawFields(ip, hosts);
    var raw := RawLine(ip, hosts);
    assert raw[0] == ip[0];
    assert TrimLeft(raw) == raw;
  }

  // ---------------------------------------------------------------------------- editing

  const START_OF_SECTION := "# Generate by Wutong. DO NOT EDIT"
  const END_OF_SECTION := "# End of Section"

  /** The line is an entry of the ip. */
  predicate EntryOf(l: HostsLine, ip: string) {
    !IsComment(l.raw) && l.raw != "" && l.ip == ip
  }

  /** The first entry of the ip is at position i; -1 means there is none. */
  ghost predicate FirstEntry(lines: seq<HostsLine>, i: int, ip: string) {
    if i == -1 then forall k :: 0 <= k < |lines| ==> !EntryOf(lines[k], ip)
    else 0 <= i < |lines| && EntryOf(lines[i], ip) && forall k :: 0 <= k < i ==> !EntryOf(lines[k], ip)
  }

  predicate IsStart(l: HostsLine) { l.raw == "# Generate by Wutong. DO NOT EDIT" }
  predicate IsEnd(l: HostsLine) { l.raw == "# End of Section" }

  ghost predicate FirstStart(lines: seq<HostsLine>, i: int) {
    if i == -1 then forall k :: 0 <= k < |lines| ==> !IsStart(lines[k])
    else 0 <= i < |lines| && IsStart(lines[i]) && forall k :: 0 <= k < i ==> !IsStart(lines[k])
  }

  ghost predicate FirstEnd(lines: seq<HostsLine>, i: int) {
    if i == -1 then forall k :: 0 <= k < |lines| ==> !IsEnd(lines[k])
    else 0 <= i < |lines| && IsEnd(lines[i]) && forall k :: 0 <= k < i ==> !IsEnd(lines[k])
  }

  /** The hosts of a line after an Add: the missing ones follow in order. */
  function AddMissing(have: seq<string>, add: seq<string>): seq<string> {
    if add == [] then have
    else
      var h := AddMissing(have, add[..|add| - 1]);
      if add[|add| - 1] in h then h else h + [add[|add| - 1]]
  }

  method ItemInSlice(item: string, list: seq<string>) returns (found: bool)
    ensures found <==> item in list
  {
    for i := 0 to |list|
      invariant item !in list[..i]
    {
      if list[i] == item {
        return true;
      }
    }
    return false;
  }

  class Hosts {
    var lines: seq<HostsLine>

    constructor (lines: seq<HostsLine>)
      ensures this.lines == lines
    {
      this.lines := lines;
    }

    method GetIPPosition(ip: string) returns (pos: int)
      ensures FirstEntry(lines, pos, ip)
    {
      for i := 0 to |lines|
        invariant forall k :: 0 <= k < i ==> !EntryOf(lines[k], ip)
      {
        if !IsComment(lines[i].raw) && lines[i].raw != "" && lines[i].ip == ip {
          return i;
        }
      }
      return -1;
    }

    method GetStartPosition() returns (pos: int)
      ensures FirstStart(lines, pos)
    {
      for i := 0 to |lines|
        invariant forall k :: 0 <= k < i ==> lines[k].raw != START_OF_SECTION
      {
        if lines[i].raw == START_OF_SECTION {
          return i;
        }
      }
      return -1;
    }

    /** The position of the end marker, counted from the line after start. */
    method GetEndPosition(start: nat) returns (pos: int)
      requires start < |lines|
      ensures FirstEnd(lines[start + 1..], pos)
    {
      var newLines := lines[start + 1..];
      for i := 0 to |newLines|
        invariant forall k :: 0 <= k < i ==> newLines[k].raw != END_OF_SECTION
      {
        if newLines[i].raw == END_OF_SECTION {
          return i;
        }
      }
      return -1;
    }

    method Add(ip: string, hosts: seq<string>, validIP: string -> bool) returns (ghost pos: int)
      modifies this
      ensures FirstEntry(old(lines), pos, ip)
      ensures lines == Added(old(lines), pos, ip, hosts, validIP)
    {
      var position := GetIPPosition(ip);
      pos := position;
      if position == -1 {
        var raw := BuildRawLine(ip, hosts);
        lines := lines + [NewHostsLine(raw, validIP)];
      } else {
        var have := lines[position].hosts;
        var newHosts := have;
        for i := 0 to |hosts|
          invariant lines == old(lines) && newHosts == AddMissing(have, hosts[..i])
        {
          assert hosts[..i + 1][..i] == hosts[..i];
          var present := ItemInSlice(hosts[i], newHosts);
          if present {
            continue;
          }
          newHosts := newHosts + [hosts[i]];
        }
        assert hosts[..|hosts|] == hosts;
        var raw := BuildRawLine(ip, newHosts);
        lines := lines[position := NewHostsLine(raw, validIP)];
      }
    }

    method AddLines(raws: seq<string>, validIP: string -> bool)
      modifies this
      ensures lines == old(lines) + Parsed(raws, validIP)
    {
      for i := 0 to |raws|
        invariant lines == old(lines) + Parsed(raws[..i], validIP)
      {
        lines := lines + [NewHostsLine(raws[i], validIP)];
        assert Parsed(raws[..i + 1], validIP) == Parsed(raws[..i], validIP) + [NewHostsLine(raws[i], validIP)];
      }
      assert raws[..|raws|] == raws;
    }

    /** Cleanup; false is the error of a start marker without an end marker. */
    method Cleanup() returns (ok: bool)
      modifies this
      ensures CleansTo(old(lines), ok, lines)
    {
      var start := GetStartPosition();
      if start == -1 {
        return true;
      }
      var end := GetEndPosition(start);
      SectionFound(lines, start, end);
      if end == -1 {
        return false;
      }
      end := end + start + 1;
      // The branch for end == |lines| is dead: end is the position of a line.
      assert end < |lines|;
      lines := lines[..start] + lines[end + 1..];
      return true;
    }
  }

  function Parsed(raws: seq<string>, validIP: string -> bool): seq<HostsLine> {
    seq(|raws|, i requires 0 <= i < |raws| => NewHostsLine(raws[i], validIP))
  }

  /** The lines after an Add whose search for the ip ended at pos. */
  function Added(lines: seq<HostsLine>, pos: int, ip: string, hosts: seq<string>, validIP: string -> bool)
      : seq<HostsLine>
    requires -1 <= pos < |lines|
  {
    if pos == -1 then lines + [NewHostsLine(RawLine(ip, hosts), validIP)]
    else lines[pos := NewHostsLine(RawLine(ip, AddMissing(lines[pos].hosts, hosts)), validIP)]
  }

  // ------------------------------------------------------------------- what Add means

  /** Every line is what parsing its text gives. */
  ghost predicate WellParsed(lines: seq<HostsLine>, validIP: string -> bool) {
    forall i :: 0 <= i < |lines| ==> lines[i] == NewHostsLine(lines[i].raw, validIP)
  }

  ghost predicate OneLinePerIP(lines: seq<HostsLine>) {
    forall i, j, ip :: 0 <= i < j < |lines| && ip != "" && EntryOf(lines[i], ip) ==> !EntryOf(lines[j], ip)
  }

  lemma {:induction false} AddMissingTokens(have: seq<string>, add: seq<string>)
    requires Tokens(have) && Tokens(add)
    ensures Tokens(AddMissing(have, add)) && have <= AddMissing(have, add)
    ensures forall h :: h in AddMissing(have, add) <==> h in have || h in add
  {
    if add != [] {
      var n := |add| - 1;
      AddMissingTokens(have, add[..n]);
      assert add == add[..n] + [add[n]];
    }
  }

  /** x occurs before y among the added hosts. */
  ghost predicate BroughtBefore(add: seq<string>, x: string, y: string) {
    exists i :: 0 <= i < |add| && add[i] == x && y !in add[..i + 1]
  }

  lemma BroughtLater(add: seq<string>, h: string, x: string, y: string)
    requires BroughtBefore(add, x, y)
    ensures BroughtBefore(add + [h], x, y)
  {
    var i :| 0 <= i < |add| && add[i] == x && y !in add[..i + 1];
    assert (add + [h])[..i + 1] == add[..i + 1] && (add + [h])[i] == x;
  }

  /** The old hosts stay in front; the missing ones follow once each, in the order in which they are brought. */
  lemma {:induction false} AddMissingInOrder(have: seq<string>, add: seq<string>)
    ensures var r := AddMissing(have, add);
      && have <= r
      && (forall h :: h in r <==> h in have || h in add)
      && (forall k :: |have| <= k < |r| ==> r[k] in add && r[k] !in r[..k])
      && (forall a, b :: |have| <= a < b < |r| ==> BroughtBefore(add, r[a], r[b]))
  {
    if add != [] {
      var n := |add| - 1;
      var init, h := add[..n], add[n];
      assert add == init + [h];
      AddMissingInOrder(have, init);
      var p, r := AddMissing(have, init), AddMissing(have, add);
      forall a, b | |have| <= a < b < |r|
        ensures BroughtBefore(add, r[a], r[b])
      {
        if b < |p| {
          BroughtLater(init, h, p[a], p[b]);
        } else {
          BroughtNew(init, h, p[a]);
        }
      }
    }
  }

  lemma BroughtNew(add: seq<string>, h: string, x: string)
    requires x in add && h !in add
    ensures BroughtBefore(add + [h], x, h)
  {
    var i :| 0 <= i < |add| && add[i] == x;
    assert (add + [h])[..i + 1] == add[..i + 1] && (add + [h])[i] == x;
  }

  lemma {:induction false} NothingMissing(have: seq<string>, add: seq<string>)
    requires forall i :: 0 <= i < |add| ==> add[i] in have
    ensures AddMissing(have, add) == have
  {
    if add != [] {
      NothingMissing(have, add[..|add| - 1]);
    }
  }

  /** Where the ip is after an Add, and the hosts it has there. */
  ghost predicate NowHas(lines: seq<HostsLine>, lines': seq<HostsLine>, pos: int, ip: string, hosts: seq<string>)
    requires -1 <= pos < |lines|
  {
    var at := if pos == -1 then |lines| else pos;
    && |lines'| == (if pos == -1 then |lines| + 1 else |lines|)
    && FirstEntry(lines', at, ip)
    && lines'[at].hosts == (if pos == -1 then hosts else AddMissing(lines[pos].hosts, hosts))
    && forall k :: 0 <= k < |lines| && k != at ==> lines'[k] == lines[k]
  }

  /** Add gives the ip its old hosts followed by the missing new ones and changes no other line. */
  lemma AddMeaning(lines: seq<HostsLine>, pos: int, ip: string, hosts: seq<string>, validIP: string -> bool)
    requires WellParsed(lines, validIP) && Address(ip) && Tokens(hosts)
    requires FirstEntry(lines, pos, ip)
    ensures NowHas(lines, Added(lines, pos, ip, hosts, validIP), pos, ip, hosts)
    ensures WellParsed(Added(lines, pos, ip, hosts, validIP), validIP)
    ensures OneLinePerIP(lines) ==> OneLinePerIP(Added(lines, pos, ip, hosts, validIP))
  {
    if pos == -1 {
      PrintParse(ip, hosts, validIP);
    } else {
      HostsOfLine(lines[pos], validIP);
      AddMissingTokens(lines[pos].hosts, hosts);
      PrintParse(ip, AddMissing(lines[pos].hosts, hosts), validIP);
    }
  }

  lemma HostsOfLine(l: HostsLine, validIP: string -> bool)
    requires l == NewHostsLine(l.raw, validIP)
    ensures Tokens(l.hosts)
  {
    FieldsAreTokens(l.raw);
  }

  /** Adding again changes nothing. */
  lemma AddTwice(lines: seq<HostsLine>, pos: int, pos2: int, ip: string, hosts: seq<string>, validIP: string -> bool)
    requires WellParsed(lines, validIP) && Address(ip) && Tokens(hosts)
    requires FirstEntry(lines, pos, ip)
    requires FirstEntry(Added(lines, pos, ip, hosts, validIP), pos2, ip)
    ensures var once := Added(lines, pos, ip, hosts, validIP); Added(once, pos2, ip, hosts, validIP) == once
  {
    var once := Added(lines, pos, ip, hosts, validIP);
    var at := if pos == -1 then |lines| else pos;
    AddMeaning(lines, pos, ip, hosts, validIP);
    assert pos2 == at;
    var have := once[at].hosts;
    if pos == -1 {
      PrintParse(ip, hosts, validIP);
    } else {
      HostsOfLine(lines[pos], validIP);
      AddMissingTokens(lines[pos].hosts, hosts);
      PrintParse(ip, AddMissing(lines[pos].hosts, hosts), validIP);
    }
    NothingMissing(have, hosts);
  }

  // --------------------------------------------------------------- what Cleanup means

  ghost predicate HasStart(lines: seq<HostsLine>) {
    exists i :: 0 <= i < |lines| && IsStart(lines[i])
  }

  /** s is the first start marker and e the first end marker after it. */
  ghost predicate Section(lines: seq<HostsLine>, s: int, e: int) {
    && 0 <= s < e < |lines| && IsStart(lines[s]) && IsEnd(lines[e])
    && (forall k :: 0 <= k < s ==> !IsStart(lines[k]))
    && (forall k :: s < k < e ==> !IsEnd(lines[k]))
  }

  /** The two searches find the section, or show that there is none. */
  lemma SectionFound(lines: seq<HostsLine>, s: nat, i: int)
    requires s < |lines| && FirstStart(lines, s) && FirstEnd(lines[s + 1..], i)
    ensures i >= 0 ==> Section(lines, s, s + 1 + i)
    ensures i == -1 ==> forall a, b :: !Section(lines, a, b)
  {
    var rest := lines[s + 1..];
    assert forall k :: s < k < |lines| ==> lines[k] == rest[k - s - 1];
    forall a, b | Section(lines, a, b)
      ensures a == s && !(i == -1)
    {
      assert rest[b - s - 1] == lines[b];
    }
  }

  /** The first section is cut out; without a start marker nothing happens; without an end marker it is an error. */
  ghost predicate CleansTo(lines: seq<HostsLine>, ok: bool, lines': seq<HostsLine>) {
    || (!HasStart(lines) && ok && lines' == lines)
    || (exists s, e :: Section(lines, s, e) && ok && lines' == lines[..s] + lines[e + 1..])
    || (HasStart(lines) && (forall s, e :: !Section(lines, s, e)) && !ok && lines' == lines)
  }

  /** There is only one first section, so the outcome is determined. */
  lemma CleanupIsDetermined(lines: seq<HostsLine>, ok1: bool, ok2: bool, r1: seq<HostsLine>, r2: seq<HostsLine>)
    requires CleansTo(lines, ok1, r1) && CleansTo(lines, ok2, r2)
    ensures ok1 == ok2 && r1 == r2
  {
    if s, e :| Section(lines, s, e) {
      forall s2, e2 | Section(lines, s2, e2)
        ensures s2 == s && e2 == e
      {
      }
    }
  }

  /** Appending a generated section and cleaning up restores the file. */
  lemma CleanupUndoesSection(lines: seq<HostsLine>, body: seq<string>, validIP: string -> bool,
                             ok: bool, lines': seq<HostsLine>)
    requires !HasStart(lines) && forall i :: 0 <= i < |body| ==> body[i] != END_OF_SECTION
    requires CleansTo(lines + Parsed([START_OF_SECTION] + body + [END_OF_SECTION], validIP), ok, lines')
    ensures ok && lines' == lines
  {
    var raws := [START_OF_SECTION] + body + [END_OF_SECTION];
    var section := Parsed(raws, validIP);
    forall k | 0 <= k < |raws|
      ensures section[k].raw == raws[k]
    {
      RawKept(raws[k], validIP);
    }
    SectionAppended(lines, section, |body| + 1);
    CleanupIsDetermined(lines + section, ok, true, lines', lines);
  }

  lemma RawKept(raw: string, validIP: string -> bool)
    ensures NewHostsLine(raw, validIP).raw == raw
  {
  }

  /** A section appended to lines without a start marker is the first one, and cutting it out leaves the lines. */
  lemma SectionAppended(lines: seq<HostsLine>, section: seq<HostsLine>, n: nat)
    requires !HasStart(lines) && 0 < n && |section| == n + 1 && IsStart(section[0]) && IsEnd(section[n])
    requires forall k :: 0 < k < n ==> !IsEnd(section[k])
    ensures CleansTo(lines + section, true, lines)
  {
    var all, s := lines + section, |lines|;
    assert forall k :: 0 <= k < |section| ==> all[s + k] == section[k];
    assert Section(all, s, s + n);
    assert all[..s] + all[s + n + 1..] == lines;
  }
}
