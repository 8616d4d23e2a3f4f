/**
 * src/utils/printerStatus.ts: reading the spooler's answers. The first line
 * of `lpstat -p` is the printer's status, and each non-blank line of
 * `lpstat -o` is one queued job, split into whitespace-separated tokens.
 * The two commands' outputs (or the error they raised) are parameters.
 */
module PrinterStatus {
  import opened Wrappers

  // ---------------------------------------------------------------------
  // JavaScript string primitives
  // ---------------------------------------------------------------------

  /**
   * A character matched by the regular-expression class `\s` and stripped by
   * `String.prototype.trim`: the ECMAScript WhiteSpace and LineTerminator
   * characters.
   */
  predicate IsSpace(c: char)
  {
    || c == '\t' || c == '\n' || c == '\U{000B}' || c == '\U{000C}' || c == '\r' || c == ' '
    || c == '\U{00A0}' || c == '\U{1680}' || ('\U{2000}' <= c <= '\U{200A}')
    || c == '\U{2028}' || c == '\U{2029}' || c == '\U{202F}' || c == '\U{205F}'
    || c == '\U{3000}' || c == '\U{FEFF}'
  }

  predicate NoSpace(s: string)
  {
    forall i | 0 <= i < |s| :: !IsSpace(s[i])
  }

  /** `parts.join(sep)`: the parts with `sep` between each two. */
  function Join(parts: seq<string>, sep: string): string
  {
    if parts == [] then ""
    else if |parts| == 1 then parts[0]
    else parts[0] + sep + Join(parts[1..], sep)
  }

  /** A join whose first part is not empty is not empty. */
  lemma JoinNonEmpty(parts: seq<string>, sep: string)
    ensures |parts| > 0 && parts[0] != "" ==> Join(parts, sep) != ""
  {
  }

  lemma JoinCons(head: string, tail: seq<string>, sep: string)
    ensures Join([head] + tail, sep) == if tail == [] then head else head + sep + Join(tail, sep)
  {
    assert ([head] + tail)[1..] == tail;
  }

  /** Putting a character in front of the first part puts it in front of the joined string. */
  lemma JoinExtendFirst(c: char, parts: seq<string>, sep: string)
    requires |parts| >= 1
    ensures Join([[c] + parts[0]] + parts[1..], sep) == [c] + Join(parts, sep)
  {
    JoinCons([c] + parts[0], parts[1..], sep);
    JoinCons(parts[0], parts[1..], sep);
    assert [parts[0]] + parts[1..] == parts;
  }

  /**
   * `s.split(sep)` for a one-character separator: the pieces between the
   * separators, as many as there are separators plus one.
   */
  function Split(s: string, sep: char): (pieces: seq<string>)
    ensures |pieces| >= 1
    ensures forall i | 0 <= i < |pieces| :: sep !in pieces[i]
  {
    if s == [] then [""]
    else if s[0] == sep then [""] + Split(s[1..], sep)
    else
      var rest := Split(s[1..], sep);
      [[s[0]] + rest[0]] + rest[1..]
  }

  /** Joining the pieces with the separator gives the string back. */
  lemma {:induction false} JoinSplit(s: string, sep: char)
    ensures Join(Split(s, sep), [sep]) == s
  {
    if s != [] {
      var rest := Split(s[1..], sep);
      JoinSplit(s[1..], sep);
      if s[0] == sep {
        JoinCons("", rest, [sep]);
      } else {
        JoinCons([s[0]] + rest[0], rest[1..], [sep]);
        JoinCons(rest[0], rest[1..], [sep]);
        assert [rest[0]] + rest[1..] == rest;
      }
    }
  }

  /** The leading run of whitespace of `s`, removed. */
  function SkipSpaces(s: string): (r: string)
    ensures |r| <= |s| && r == s[|s| - |r|..]
    ensures r == [] || !IsSpace(r[0])
    ensures forall i | 0 <= i < |s| - |r| :: IsSpace(s[i])
  {
    if s != [] && IsSpace(s[0]) then SkipSpaces(s[1..]) else s
  }

  /**
   * `s.split(/\s+/)`: the tokens between maximal runs of whitespace. A
   * leading run gives an empty first token, a trailing run an empty last one.
   */
  function SplitSpaces(s: string): (tokens: seq<string>)
    ensures |tokens| >= 1
    ensures forall i | 0 <= i < |tokens| :: NoSpace(tokens[i])
    ensures forall i | 0 < i < |tokens| - 1 :: tokens[i] != ""
    decreases |s|
  {
    if s == [] then [""]
    else if IsSpace(s[0]) then [""] + SplitSpaces(SkipSpaces(s))
    else
      var rest := SplitSpaces(s[1..]);
      assert NoSpace(rest[0]);
      [[s[0]] + rest[0]] + rest[1..]
  }

  /** `s` with every maximal run of whitespace replaced by one space. */
  function Collapse(s: string): (r: string)
    decreases |s|
  {
    if s == [] then ""
    else if IsSpace(s[0]) then " " + Collapse(SkipSpaces(s))
    else [s[0]] + Collapse(s[1..])
  }

  /** The tokens, joined by single spaces, are the string with its whitespace runs collapsed. */
  lemma {:induction false} JoinSplitSpaces(s: string)
    ensures Join(SplitSpaces(s), " ") == Collapse(s)
    decreases |s|
  {
    if s != [] {
      if IsSpace(s[0]) {
        JoinSplitSpaces(SkipSpaces(s));
        JoinCons("", SplitSpaces(SkipSpaces(s)), " ");
      } else {
        JoinSplitSpaces(s[1..]);
        JoinExtendFirst(s[0], SplitSpaces(s[1..]), " ");
      }
    }
  }

  /** `s.trim()`: `s` without leading and trailing whitespace. */
  function Trim(s: string): (r: string)
    ensures |r| > 0 <==> exists i | 0 <= i < |s| :: !IsSpace(s[i])
    decreases |s|
  {
    if s != [] && IsSpace(s[0]) then Trim(s[1..])
    else if s != [] && IsSpace(s[|s| - 1]) then Trim(s[..|s| - 1])
    else s
  }

  /** `s.toLowerCase()` on the letters A to Z; every other character is kept. */
  function ToLower(s: string): (r: string)
    ensures |r| == |s|
    ensures forall i | 0 <= i < |s| :: !('A' <= r[i] <= 'Z')
    ensures forall i | 0 <= i < |s| :: !('A' <= s[i] <= 'Z') ==> r[i] == s[i]
  {
    seq(|s|, i requires 0 <= i < |s| =>
      if 'A' <= s[i] <= 'Z' then (s[i] as int - 'A' as int + 'a' as int) as char else s[i])
  }

  /** `t` occurs in `s` at index i. */
  predicate OccursAt(s: string, t: string, i: nat)
  {
    i + |t| <= |s| && s[i..i + |t|] == t
  }

  lemma OccursShift(s: string, t: string, i: nat)
    requires 0 < |s|
    ensures OccursAt(s, t, i + 1) <==> OccursAt(s[1..], t, i)
  {
    if i + 1 + |t| <= |s| {
      assert s[1..][i..i + |t|] == s[i + 1..i + 1 + |t|];
    }
  }

  /** `s.includes(t)`, searched from the front. */
  function Includes(s: string, t: string): (b: bool)
    ensures b <==> exists i: nat :: OccursAt(s, t, i)
    decreases |s|
  {
    if |t| > |s| then false
    else if s[..|t|] == t then assert OccursAt(s, t, 0); true
    else
      var b := Includes(s[1..], t);
      assert b ==> exists i: nat :: OccursAt(s, t, i) by {
        if b {
          var i: nat :| OccursAt(s[1..], t, i);
          OccursShift(s, t, i);
        }
      }
      assert (exists i: nat :: OccursAt(s, t, i)) ==> b by {
        if i: nat :| OccursAt(s, t, i) {
          assert i != 0;
          OccursShift(s, t, i - 1);
        }
      }
      b
  }

  // ---------------------------------------------------------------------
  // The parse
  // ---------------------------------------------------------------------

  /** The status line: the text before the first line feed, or 'Unknown' when that text is empty. */
  function StatusLine(statusOut: string): (status: string)
    ensures statusOut == [] || statusOut[0] == '\n' ==> status == "Unknown"
    ensures !(statusOut == [] || statusOut[0] == '\n') ==>
      && 0 < |status| <= |statusOut| && status == statusOut[..|status|] && '\n' !in status
      && (|status| < |statusOut| ==> statusOut[|status|] == '\n')
  {
    var first := Split(statusOut, '\n')[0];
    FirstPiece(statusOut, '\n');
    if first == "" then "Unknown" else first
  }

  /** The first piece of a split is the text up to the first separator. */
  lemma {:induction false} FirstPiece(s: string, sep: char)
    ensures var p := Split(s, sep)[0];
      |p| <= |s| && p == s[..|p|] && sep !in p && (|p| < |s| ==> s[|p|] == sep)
  {
    if s != [] && s[0] != sep {
      FirstPiece(s[1..], sep);
    }
  }

  /** The heuristic for a paused printer: the lowercased status mentions 'paused' or 'disabled'. */
  predicate IsPaused(statusLine: string)
  {
    Includes(ToLower(statusLine), "paused") || Includes(ToLower(statusLine), "disabled")
  }

  /** A queued job as the status page shows it. `user` is `undefined` when the line has one token. */
  datatype PrintJob = PrintJob(id: string, name: string, file: string, size: string, time: string, user: Option<string>)

  /** One line of `lpstat -o`: the job id, the user, and the tokens from the fourth on as the time. */
  function ParseJob(line: string): (job: PrintJob)
    ensures var parts := SplitSpaces(line);
      && job.id == parts[0] && job.name == parts[0]
      && job.file == "Raw Data" && job.size == "Unknown"
      && (job.user.Some? <==> |parts| >= 2)
      && (job.user.Some? ==> job.user.value == parts[1])
      && (|parts| <= 3 ==> job.time == "Just now")
      && (|parts| == 4 ==> job.time == if parts[3] == "" then "Just now" else parts[3])
      && (|parts| > 4 ==> job.time == Join(parts[3..], " "))
  {
    JoinNonEmpty(SplitSpaces(line)[if |SplitSpaces(line)| < 3 then |SplitSpaces(line)| else 3..], " ");
    var parts := SplitSpaces(line);
    var time := Join(parts[if |parts| < 3 then |parts| else 3..], " ");
    PrintJob(parts[0], parts[0], "Raw Data", "Unknown",
      if time == "" then "Just now" else time,
      if |parts| > 1 then Some(parts[1]) else None)
  }

  /** A line that starts with whitespace gives an empty job id. */
  lemma LeadingSpaceGivesEmptyId(line: string)
    requires line != [] && IsSpace(line[0])
    ensures ParseJob(line).id == "" && ParseJob(line).name == ""
  {
  }

  /** A word without whitespace is one token. */
  lemma {:induction false} SplitSpacesOfWord(w: string)
    requires NoSpace(w)
    ensures SplitSpaces(w) == [w]
  {
    if w != [] {
      assert !IsSpace(w[0]);
      SplitSpacesOfWord(w[1..]);
      assert [w[0]] + w[1..] == w;
    }
  }

  /** A word followed by one space and more text is the first token. */
  lemma {:induction false} SplitSpacesOfWordSpace(w: string, rest: string)
    requires NoSpace(w) && (rest == [] || !IsSpace(rest[0]))
    ensures SplitSpaces(w + " " + rest) == [w] + SplitSpaces(rest)
  {
    if w == [] {
      assert w + " " + rest == " " + rest;
      assert SkipSpaces(" " + rest) == rest by {
        assert (" " + rest)[1..] == rest;
      }
    } else {
      assert (w + " " + rest)[1..] == w[1..] + " " + rest;
      SplitSpacesOfWordSpace(w[1..], rest);
      assert [w[0]] + w[1..] == w;
    }
  }

  /**
   * A line of the usual shape, job id, user, size and a time of two tokens
   * separated by single spaces: the job is read field by field.
   */
  lemma TypicalJobLine(id: string, user: string, size: string, day: string, date: string)
    requires id != "" && user != "" && size != "" && day != "" && date != ""
    requires NoSpace(id) && NoSpace(user) && NoSpace(size) && NoSpace(day) && NoSpace(date)
    ensures ParseJob(id + " " + user + " " + size + " " + day + " " + date)
      == PrintJob(id, id, "Raw Data", "Unknown", day + " " + date, Some(user))
  {
    var t4 := day + " " + date;
    var t3 := size + " " + t4;
    var t2 := user + " " + t3;
    var line := id + " " + t2;
    SplitSpacesOfWord(date);
    SplitSpacesOfWordSpace(day, date);
    SplitSpacesOfWordSpace(size, t4);
    SplitSpacesOfWordSpace(user, t3);
    SplitSpacesOfWordSpace(id, t2);
    var parts := [id, user, size, day, date];
    assert id + " " + user + " " + size + " " + day + " " + date == line;
    assert SplitSpaces(line) == parts;
    assert parts[3..] == [day, date];
    JoinCons(day, [date], " ");
  }

  /** A line of three tokens has no time, which reads 'Just now'; a line of one token has no user. */
  lemma ShortJobLines(id: string, user: string, size: string)
    requires id != "" && user != "" && size != ""
    requires NoSpace(id) && NoSpace(user) && NoSpace(size)
    ensures ParseJob(id + " " + user + " " + size).time == "Just now"
    ensures ParseJob(id).user == None && ParseJob(id).id == id
  {
    SplitSpacesOfWord(size);
    SplitSpacesOfWordSpace(user, size);
    SplitSpacesOfWordSpace(id, user + " " + size);
    assert id + " " + user + " " + size == id + " " + (user + " " + size);
    assert |SplitSpaces(id + " " + user + " " + size)| == 3;
    SplitSpacesOfWord(id);
  }

  /** A line whose trimmed form is empty. */
  predicate IsBlank(line: string)
  {
    |Trim(line)| == 0
  }

  /** `lines.filter(line => line.trim().length > 0)`. */
  function NonBlank(lines: seq<string>): (kept: seq<string>)
    ensures forall i | 0 <= i < |kept| :: !IsBlank(kept[i])
    ensures forall i | 0 <= i < |lines| :: !IsBlank(lines[i]) ==> lines[i] in kept
    ensures forall l | l in kept :: l in lines
  {
    if lines == [] then []
    else if IsBlank(lines[0]) then NonBlank(lines[1..])
    else [lines[0]] + NonBlank(lines[1..])
  }

  /** Filtering keeps the order: it distributes over concatenation. */
  lemma {:induction false} NonBlankAppend(a: seq<string>, b: seq<string>)
    ensures NonBlank(a + b) == NonBlank(a) + NonBlank(b)
  {
    if a == [] {
      assert a + b == b;
    } else {
      assert (a + b)[0] == a[0];
      assert (a + b)[1..] == a[1..] + b;
      NonBlankAppend(a[1..], b);
    }
  }

  /** One job per non-blank line of `lpstat -o`, in the order of the lines. */
  function ParseJobs(queueOut: string): (jobs: seq<PrintJob>)
    ensures var kept := NonBlank(Split(queueOut, '\n'));
      |jobs| == |kept| && forall i | 0 <= i < |jobs| :: jobs[i] == ParseJob(kept[i])
  {
    var kept := NonBlank(Split(queueOut, '\n'));
    seq(|kept|, i requires 0 <= i < |kept| => ParseJob(kept[i]))
  }

  datatype PrinterStatus = PrinterStatus(status: string, jobs: seq<PrintJob>, isPaused: bool)

  /**
   * `getPrinterStatusFromOS`, given what `lpstat -p` and then `lpstat -o`
   * printed or the error either raised (`lpstat -o` is not run when
   * `lpstat -p` fails).
   */
  function GetPrinterStatusFromOS(statusOut: Result<string>, queueOut: Result<string>): (r: PrinterStatus)
    ensures statusOut.Failure? ==> r == PrinterStatus("Error: " + statusOut.error, [], false)
    ensures statusOut.Success? && queueOut.Failure? ==> r == PrinterStatus("Error: " + queueOut.error, [], false)
    ensures statusOut.Success? && queueOut.Success? ==>
      && r.status == StatusLine(statusOut.value)
      && r.isPaused == IsPaused(r.status)
      && r.jobs == ParseJobs(queueOut.value)
  {
    match statusOut
    case Failure(e) => PrinterStatus("Error: " + e, [], false)
    case Success(out) =>
      var statusLine := StatusLine(out);
      var isPaused := IsPaused(statusLine);
      match queueOut
      case Failure(e) => PrinterStatus("Error: " + e, [], false)
      case Success(queue) => PrinterStatus(statusLine, ParseJobs(queue), isPaused)
  }
}
