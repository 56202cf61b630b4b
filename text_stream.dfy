/** The parts of a std::stringstream / std::ifstream that the delimited v2.0
    codec uses. A stream is the unread text and whether it is still good
    (neither eofbit nor failbit set); an operation on a stream that is not
    good fails without touching its target. */
module TextStream {
  import opened Common
  import opened Decimal

  datatype Stream = Stream(rest: string, good: bool)

  function Open(s: string): Stream { Stream(s, true) }

  /** The result of one extraction: whether it succeeded (failbit clear), the
      target variable's value afterwards, and the stream afterwards. */
  datatype Got<T> = Got(ok: bool, value: T, stream: Stream)

  /** `std::getline(in, target, delim)`. On a stream that is not good it fails
      and leaves `target` as it was. Otherwise it erases `target` and reads up
      to the delimiter, consuming it; reaching the end first sets eofbit, and
      reaching it before reading any character also sets failbit. */
  function GetLine(s: Stream, delim: char, target: string): (g: Got<string>)
    ensures !s.good ==> !g.ok && g.value == target && g.stream == s
    ensures s.good && s.rest == [] ==> !g.ok && g.value == ""
    ensures g.ok ==> delim !in g.value && |g.stream.rest| < |s.rest|
  {
    if !s.good then Got(false, target, s)
    else if s.rest == [] then Got(false, "", Stream([], false))
    else
      var k := FirstIndexOf(s.rest, delim);
      if k < |s.rest| then Got(true, s.rest[..k], Stream(s.rest[k + 1..], true))
      else Got(true, s.rest, Stream([], false))
  }

  /** A field followed by its delimiter is read back exactly. */
  lemma GetLineField(f: string, delim: char, rest: string, target: string)
    requires delim !in f
    ensures GetLine(Open(f + [delim] + rest), delim, target) == Got(true, f, Open(rest))
  {
    var t := f + [delim] + rest;
    FirstIndexOfSplit(f, delim, rest);
    assert t[..|f|] == f;
    assert t[|f| + 1..] == rest;
  }

  /** A non-empty last field without its delimiter is read back exactly and
      leaves the stream at its end. */
  lemma GetLineLast(f: string, delim: char, target: string)
    requires delim !in f && f != []
    ensures GetLine(Open(f), delim, target) == Got(true, f, Stream([], false))
  {
    FirstIndexOfAbsent(f, delim);
  }

  /** `in >> d` for a double (in cents). The sentry skips white space and fails,
      leaving `target` as it was, when the stream is not good or holds
      nothing else; a text that is not a number fails and stores 0. */
  function ExtractCents(s: Stream, target: int): (g: Got<int>)
    ensures !s.good ==> !g.ok && g.value == target
  {
    if !s.good then Got(false, target, s)
    else
      var t := s.rest[SpaceRun(s.rest)..];
      if t == [] then Got(false, target, Stream([], false))
      else
        match ParseCents(t)
        case None => Got(false, 0, Stream(t, false))
        case Some(c) => Got(true, c, Stream([], false))
  }

  lemma ExtractCentsPrinted(c: int, target: int)
    ensures ExtractCents(Open(CentsToString(c)), target).ok
    ensures ExtractCents(Open(CentsToString(c)), target).value == c
  {
    var s := CentsToString(c);
    assert s == (if c < 0 then "-" else "") + NatToString((if c < 0 then -c else c) / 100) + "." + TwoDigits(if c < 0 then -c else c);
    assert s != [] && !IsSpace(s[0]);
    SpaceRunNone(s);
    assert s[0..] == s;
    CentsRoundTrip(c);
  }

  /** The lines `while (std::getline(file, line))` yields from a file's text: a
      final line without a newline is still read, and a text ending in a
      newline yields no empty last line. */
  function Lines(text: string): (ls: seq<string>)
    ensures forall i :: 0 <= i < |ls| ==> '\n' !in ls[i]
    decreases |text|
  {
    if text == [] then []
    else
      var k := FirstIndexOf(text, '\n');
      if k < |text| then [text[..k]] + Lines(text[k + 1..])
      else [text]
  }

  /** What `file << line << std::endl` writes for each line in turn. */
  function Unlines(ls: seq<string>): string {
    if ls == [] then "" else ls[0] + "\n" + Unlines(ls[1..])
  }

  lemma {:induction false} UnlinesAppend(ls: seq<string>, x: string)
    ensures Unlines(ls + [x]) == Unlines(ls) + x + "\n"
  {
    if ls != [] {
      assert (ls + [x])[1..] == ls[1..] + [x];
      UnlinesAppend(ls[1..], x);
    } else {
      assert [x][1..] == [];
    }
  }

  /** Reading back what was written line by line gives the same lines, as long
      as no line holds a newline of its own. */
  lemma {:induction false} LinesUnlines(ls: seq<string>)
    requires forall i :: 0 <= i < |ls| ==> '\n' !in ls[i]
    ensures Lines(Unlines(ls)) == ls
  {
    if ls != [] {
      var text := Unlines(ls);
      assert text == ls[0] + ['\n'] + Unlines(ls[1..]);
      FirstIndexOfSplit(ls[0], '\n', Unlines(ls[1..]));
      assert text[..|ls[0]|] == ls[0];
      assert text[|ls[0]| + 1..] == Unlines(ls[1..]);
      LinesUnlines(ls[1..]);
    }
  }
}
