/**
 The text format of `blacklist.txt`, the durable permanent blacklist: a fixed
 two-line `#` header followed by one address per line
 (AntiDDoSService.saveBlacklist), read back line by line, each line trimmed,
 with empty and `#` lines skipped (AntiDDoSService.loadBlacklist).
 */
module BlacklistFile {
  import opened Wrappers
  import opened JavaStrings

  // ---------------------------------------------------------------------------
  // Lines as `PrintWriter.println` writes them and `BufferedReader.readLine`
  // reads them back.
  // ---------------------------------------------------------------------------

  /** The platform line separator `println` appends. */
  datatype LineSeparator = LF | CRLF {
    function Text(): string {
      match this
      case LF => "\n"
      case CRLF => "\r\n"
    }
  }

  /** `readLine` ends a line at a line feed or a carriage return. */
  predicate IsLineBreak(c: char) {
    c == '\n' || c == '\r'
  }

  /** A line `readLine` hands back whole: it holds no line break. */
  predicate IsSingleLine(line: string) {
    forall i :: 0 <= i < |line| ==> !IsLineBreak(line[i])
  }

  /** Offset of the first line break in `text`, or `|text|` when there is none. */
  function LineEnd(text: string): (n: nat)
    ensures n <= |text|
    ensures IsSingleLine(text[..n])
    ensures n < |text| ==> IsLineBreak(text[n])
    decreases |text|
  {
    if |text| == 0 || IsLineBreak(text[0]) then 0
    else
      var m := LineEnd(text[1..]);
      assert text[..1 + m] == [text[0]] + text[1..][..m];
      1 + m
  }

  /** What is left after the line break at `n`: "\r\n" counts as one break. */
  function AfterBreak(text: string, n: nat): (rest: string)
    requires n <= |text|
    ensures |rest| < |text| - n || n == |text|
  {
    if n == |text| then ""
    else if text[n] == '\r' && n + 1 < |text| && text[n + 1] == '\n' then text[n + 2..]
    else text[n + 1..]
  }

  /** The successive results of `readLine` until it returns `null`. */
  function ReadLines(text: string): (lines: seq<string>)
    ensures forall i :: 0 <= i < |lines| ==> IsSingleLine(lines[i])
    decreases |text|
  {
    if |text| == 0 then []
    else
      var n := LineEnd(text);
      [text[..n]] + ReadLines(AfterBreak(text, n))
  }

  /** `println` of every line in turn. */
  function WriteLines(lines: seq<string>, sep: LineSeparator): (text: string)
    ensures |text| >= |lines|
  {
    if |lines| == 0 then "" else lines[0] + sep.Text() + WriteLines(lines[1..], sep)
  }

  /** Reading back what was written yields the same lines, provided none of
      them holds a line break of its own. */
  lemma {:induction false} ReadWriteLines(lines: seq<string>, sep: LineSeparator)
    requires forall i :: 0 <= i < |lines| ==> IsSingleLine(lines[i])
    ensures ReadLines(WriteLines(lines, sep)) == lines
    decreases |lines|
  {
    if |lines| > 0 {
      ReadWrittenHead(lines, sep);
      ReadWriteLines(lines[1..], sep);
      assert lines == [lines[0]] + lines[1..];
    }
  }

  /** Reading what was written yields the first line, then what reading the
      rest yields. */
  lemma ReadWrittenHead(lines: seq<string>, sep: LineSeparator)
    requires |lines| > 0 && IsSingleLine(lines[0])
    ensures ReadLines(WriteLines(lines, sep)) == [lines[0]] + ReadLines(WriteLines(lines[1..], sep))
  {
    var rest := WriteLines(lines[1..], sep);
    assert WriteLines(lines, sep) == lines[0] + sep.Text() + rest;
    ReadOneLine(lines[0], sep, rest);
  }

  /** `readLine` hands back a written single line and leaves what follows
      its separator. */
  lemma ReadOneLine(line: string, sep: LineSeparator, rest: string)
    requires IsSingleLine(line)
    ensures ReadLines(line + sep.Text() + rest) == [line] + ReadLines(rest)
  {
    var text := line + sep.Text() + rest;
    LineEndOfWritten(line, sep.Text(), rest);
    assert text[|line|..] == sep.Text() + rest;
    assert AfterBreak(text, |line|) == rest;
    assert text[..|line|] == line;
  }

  /** A last line without a separator is still returned whole. */
  lemma ReadLastLine(line: string)
    requires line != "" && IsSingleLine(line)
    ensures ReadLines(line) == [line]
  {
    LineEndOfSingle(line);
    assert line[..|line|] == line;
  }

  /** A single line has no break to end at. */
  lemma {:induction false} LineEndOfSingle(line: string)
    requires IsSingleLine(line)
    ensures LineEnd(line) == |line|
    decreases |line|
  {
    if |line| > 0 {
      assert IsSingleLine(line[1..]) by {
        forall i | 0 <= i < |line| - 1 ensures !IsLineBreak(line[1..][i]) {
          assert line[1..][i] == line[i + 1];
        }
      }
      LineEndOfSingle(line[1..]);
    }
  }

  /** A carriage return not followed by a line feed ends the line on its
      own, and the unit after it starts the next line. */
  lemma ReadAfterLoneCR(line: string, rest: string)
    requires IsSingleLine(line)
    requires |rest| > 0 ==> rest[0] != '\n'
    ensures ReadLines(line + "\r" + rest) == [line] + ReadLines(rest)
  {
    var text := line + "\r" + rest;
    LineEndOfWritten(line, "\r", rest);
    assert text[|line|] == '\r';
    assert text[|line| + 1..] == rest;
    assert AfterBreak(text, |line|) == rest;
    assert text[..|line|] == line;
  }

  /** A single line followed by a separator ends exactly at the separator. */
  lemma {:induction false} LineEndOfWritten(line: string, sep: string, rest: string)
    requires IsSingleLine(line)
    requires |sep| > 0 && IsLineBreak(sep[0])
    ensures LineEnd(line + sep + rest) == |line|
    decreases |line|
  {
    var text := line + sep + rest;
    if |line| > 0 {
      assert text[1..] == line[1..] + sep + rest;
      LineEndOfWritten(line[1..], sep, rest);
    }
  }

  // ---------------------------------------------------------------------------
  // The blacklist content.
  // ---------------------------------------------------------------------------

  const HeaderTitle: string := "# IPBlock Permanent Blacklist"
  const HeaderNote: string := "# IPs in this file are permanently blocked"

  /** A line that names a blocked address once trimmed: not blank, not a comment. */
  predicate IsEntryLine(line: string) {
    var t := Trim(line);
    t != "" && !StartsWith(t, "#")
  }

  /** The addresses a sequence of lines contributes, in the loader's terms. */
  function ParseEntries(lines: seq<string>): set<string> {
    if |lines| == 0 then {}
    else (if IsEntryLine(lines[0]) then {Trim(lines[0])} else {}) + ParseEntries(lines[1..])
  }

  /** An address is loaded exactly when some line, once trimmed, names it. */
  lemma ParseEntriesMembers(lines: seq<string>)
    ensures forall ip :: ip in ParseEntries(lines) <==>
      exists i :: 0 <= i < |lines| && IsEntryLine(lines[i]) && Trim(lines[i]) == ip
  {
    forall ip ensures ip in ParseEntries(lines) <==>
        exists i :: 0 <= i < |lines| && IsEntryLine(lines[i]) && Trim(lines[i]) == ip {
      ParseEntriesMember(lines, ip);
    }
  }

  /** The induction behind `ParseEntriesMembers`, for one address. */
  lemma {:induction false} ParseEntriesMember(lines: seq<string>, ip: string)
    ensures ip in ParseEntries(lines) <==>
      exists i :: 0 <= i < |lines| && IsEntryLine(lines[i]) && Trim(lines[i]) == ip
    decreases |lines|
  {
    if |lines| > 0 {
      var tail := lines[1..];
      ParseEntriesMember(tail, ip);
      ParseEntriesStep(lines, ip);
      if ip in ParseEntries(tail) {
        var j :| 0 <= j < |tail| && IsEntryLine(tail[j]) && Trim(tail[j]) == ip;
        assert lines[j + 1] == tail[j];
      }
      if exists i :: 0 <= i < |lines| && IsEntryLine(lines[i]) && Trim(lines[i]) == ip {
        var i :| 0 <= i < |lines| && IsEntryLine(lines[i]) && Trim(lines[i]) == ip;
        if i > 0 {
          assert tail[i - 1] == lines[i];
        }
      }
    }
  }

  /** One step of the loader: the first line's contribution and the rest's. */
  lemma ParseEntriesStep(lines: seq<string>, ip: string)
    requires |lines| > 0
    ensures ip in ParseEntries(lines) <==>
      (IsEntryLine(lines[0]) && Trim(lines[0]) == ip) || ip in ParseEntries(lines[1..])
  {
  }

  /** `loadBlacklist`: the addresses named by the file. A missing file leaves
      the blacklist empty. */
  function LoadBlacklist(file: Option<string>): (ips: set<string>)
    ensures file.None? ==> ips == {}
    ensures file.Some? ==>
      var lines := ReadLines(file.value);
      forall ip :: ip in ips <==>
        exists i :: 0 <= i < |lines| && IsEntryLine(lines[i]) && Trim(lines[i]) == ip
  {
    match file
    case None => {}
    case Some(text) =>
      ParseEntriesMembers(ReadLines(text));
      ParseEntries(ReadLines(text))
  }

  /** The lines `saveBlacklist` emits for one iteration order of the set. */
  function BlacklistLines(order: seq<string>): (lines: seq<string>)
    ensures |lines| == |order| + 2
    ensures !IsEntryLine(lines[0]) && !IsEntryLine(lines[1])
    ensures lines[2..] == order
  {
    HeaderIsComment(HeaderTitle);
    HeaderIsComment(HeaderNote);
    [HeaderTitle, HeaderNote] + order
  }

  /** Both header lines are comments to the loader. */
  lemma HeaderIsComment(line: string)
    requires line == HeaderTitle || line == HeaderNote
    ensures !IsEntryLine(line)
  {
    CommentLine(line);
  }

  /** Neither header line holds a line break. */
  lemma HeadersAreSingleLines()
    ensures IsSingleLine(HeaderTitle) && IsSingleLine(HeaderNote)
  {
  }

  /** A line that starts with `#` and does not end in a trimmable unit is a comment. */
  lemma CommentLine(line: string)
    requires |line| > 0 && line[0] == '#' && !IsTrimmable(line[|line| - 1])
    ensures !IsEntryLine(line)
  {
    HashPrefix(line);
    TrimFixedPoint(line);
  }

  /** A line whose first unit is `#` starts with "#". */
  lemma HashPrefix(line: string)
    requires |line| > 0 && line[0] == '#'
    ensures StartsWith(line, "#")
  {
    assert line[..1] == ['#'];
  }

  /** `saveBlacklist`: the whole file. */
  function SaveBlacklist(order: seq<string>, sep: LineSeparator): string {
    WriteLines(BlacklistLines(order), sep)
  }

  /** `order` lists every element of `blocked` exactly once, as iterating
      over the Java set does, in some unspecified order. */
  predicate IsEnumeration(order: seq<string>, blocked: set<string>) {
    && (forall ip :: ip in blocked ==> ip in order)
    && (forall i :: 0 <= i < |order| ==> order[i] in blocked)
    && (forall i, j :: 0 <= i < j < |order| ==> order[i] != order[j])
  }

  /** An address the file format carries unchanged: non-empty, already
      trimmed, not taken for a comment, and without a line break. */
  predicate IsStorable(ip: string) {
    ip != "" && IsTrimmed(ip) && !StartsWith(ip, "#") && IsSingleLine(ip)
  }

  /** Every line of `lines` is a single line. */
  predicate AllSingleLines(lines: seq<string>) {
    forall i :: 0 <= i < |lines| ==> IsSingleLine(lines[i])
  }

  /** Parsing comment lines followed by an enumeration of `blocked` yields
      the trimmed form of every entry of `blocked` that is not blank or a
      comment. */
  lemma ParseAfterHeader(header: seq<string>, order: seq<string>, blocked: set<string>)
    requires forall i :: 0 <= i < |header| ==> !IsEntryLine(header[i])
    requires IsEnumeration(order, blocked)
    ensures ParseEntries(header + order) == set ip | ip in blocked && IsEntryLine(ip) :: Trim(ip)
  {
    ParseSkipsComments(header, order);
    ParseEnumeration(order, blocked);
  }

  /** Leading lines that are blank or comments contribute nothing. */
  lemma {:induction false} ParseSkipsComments(header: seq<string>, order: seq<string>)
    requires forall i :: 0 <= i < |header| ==> !IsEntryLine(header[i])
    ensures ParseEntries(header + order) == ParseEntries(order)
    decreases |header|
  {
    var lines := header + order;
    if |header| == 0 {
      assert lines == order;
    } else {
      assert lines[0] == header[0];
      assert lines[1..] == header[1..] + order;
      ParseSkipsComments(header[1..], order);
      assert ParseEntries(lines) == ParseEntries(lines[1..]);
    }
  }

  /** Parsing an enumeration of `blocked` yields the trimmed form of every
      entry of `blocked` that is not blank or a comment. */
  lemma ParseEnumeration(order: seq<string>, blocked: set<string>)
    requires IsEnumeration(order, blocked)
    ensures ParseEntries(order) == set ip | ip in blocked && IsEntryLine(ip) :: Trim(ip)
  {
    ParseEntriesMembers(order);
    var loaded := ParseEntries(order);
    var survivors := set ip | ip in blocked && IsEntryLine(ip) :: Trim(ip);
    forall x | x in loaded ensures x in survivors {
      var i :| 0 <= i < |order| && IsEntryLine(order[i]) && Trim(order[i]) == x;
      assert order[i] in blocked;
    }
    forall ip | ip in blocked && IsEntryLine(ip) ensures Trim(ip) in loaded {
      var j :| 0 <= j < |order| && order[j] == ip;
    }
  }

  /** What survives a save and a reload, for any content of the set: the
      trimmed form of every address that is not blank or a comment. */
  lemma LoadAfterSave(blocked: set<string>, order: seq<string>, sep: LineSeparator)
    requires IsEnumeration(order, blocked)
    requires forall ip :: ip in blocked ==> IsSingleLine(ip)
    ensures LoadBlacklist(Some(SaveBlacklist(order, sep)))
         == set ip | ip in blocked && IsEntryLine(ip) :: Trim(ip)
  {
    var header := [HeaderTitle, HeaderNote];
    HeaderLines(header);
    assert SaveBlacklist(order, sep) == WriteLines(header + order, sep);
    LoadAfterHeader(header, order, blocked, sep);
  }

  /** The header is made of single lines the loader skips. */
  lemma HeaderLines(header: seq<string>)
    requires header == [HeaderTitle, HeaderNote]
    ensures AllSingleLines(header)
    ensures forall i :: 0 <= i < |header| ==> !IsEntryLine(header[i])
  {
    HeadersAreSingleLines();
    HeaderIsComment(HeaderTitle);
    HeaderIsComment(HeaderNote);
    forall i | 0 <= i < |header| ensures IsSingleLine(header[i]) && !IsEntryLine(header[i]) {
      if i == 0 {
        assert header[i] == HeaderTitle;
      } else {
        assert header[i] == HeaderNote;
      }
    }
  }

  /** Reading back comment lines followed by an enumeration of `blocked`. */
  lemma LoadAfterHeader(header: seq<string>, order: seq<string>, blocked: set<string>, sep: LineSeparator)
    requires AllSingleLines(header)
    requires forall i :: 0 <= i < |header| ==> !IsEntryLine(header[i])
    requires IsEnumeration(order, blocked)
    requires forall ip :: ip in blocked ==> IsSingleLine(ip)
    ensures ParseEntries(ReadLines(WriteLines(header + order, sep)))
         == set ip | ip in blocked && IsEntryLine(ip) :: Trim(ip)
  {
    SingleLinesAppend(header, order);
    ReadWriteLines(header + order, sep);
    ParseAfterHeader(header, order, blocked);
  }

  /** Joining two sequences of single lines gives single lines. */
  lemma SingleLinesAppend(header: seq<string>, order: seq<string>)
    requires AllSingleLines(header)
    requires forall i :: 0 <= i < |order| ==> IsSingleLine(order[i])
    ensures AllSingleLines(header + order)
  {
    var lines := header + order;
    forall i | 0 <= i < |lines| ensures IsSingleLine(lines[i]) {
      if i < |header| {
        assert lines[i] == header[i];
      } else {
        assert lines[i] == order[i - |header|];
      }
    }
  }

  /** The persistence round trip: saving a set of storable addresses and
      loading the file back yields exactly that set. */
  lemma SaveLoadRoundTrip(blocked: set<string>, order: seq<string>, sep: LineSeparator)
    requires IsEnumeration(order, blocked)
    requires forall ip :: ip in blocked ==> IsStorable(ip)
    ensures LoadBlacklist(Some(SaveBlacklist(order, sep))) == blocked
  {
    LoadAfterSave(blocked, order, sep);
    StorableSurvive(blocked);
  }

  /** Storable addresses come through the loader's filter unchanged. */
  lemma StorableSurvive(blocked: set<string>)
    requires forall ip :: ip in blocked ==> IsStorable(ip)
    ensures (set ip | ip in blocked && IsEntryLine(ip) :: Trim(ip)) == blocked
  {
    forall ip | ip in blocked ensures IsEntryLine(ip) && Trim(ip) == ip {
      TrimFixedPoint(ip);
    }
  }
}
