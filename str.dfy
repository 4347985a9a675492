/**
 * The two `str` operations minigrep uses besides `contains`: `lines` and
 * `to_lowercase`.
 */
module Str {

  const LF: char := '\n'
  const CR: char := '\r'

  /** The length of the first line of `s`: the position of its first `'\n'`, or `|s|`. */
  function LineEnd(s: string): (k: nat)
    ensures k <= |s|
    ensures forall i :: 0 <= i < k ==> s[i] != LF
    ensures k < |s| ==> s[k] == LF
  {
    if s == [] || s[0] == LF then 0 else 1 + LineEnd(s[1..])
  }

  /** A line with one trailing `'\r'` removed, if it has one. */
  predicate EndsWithCr(line: string) {
    line != [] && line[|line| - 1] == CR
  }

  function StripCr(line: string): (r: string)
    ensures r == line || (line == r + [CR])
  {
    if EndsWithCr(line) then line[..|line| - 1] else line
  }

  /**
   * `s.lines()`: the text split at each `'\n'`, one trailing `'\r'` dropped
   * from every line, and no empty last line when the text ends in `'\n'`.
   */
  function Lines(s: string): (r: seq<string>)
    ensures forall i :: 0 <= i < |r| ==> LF !in r[i]
    decreases |s|
  {
    if s == [] then []
    else
      var k := LineEnd(s);
      [StripCr(s[..k])] + (if k < |s| then Lines(s[k + 1..]) else [])
  }

  /** The text of `lines`, each line followed by `terminator`. */
  function Terminated(lines: seq<string>, terminator: string): string {
    if lines == [] then [] else lines[0] + terminator + Terminated(lines[1..], terminator)
  }

  /** The first line of `line + "\n" + rest` is `line` when `line` has no `'\n'`. */
  lemma LineEndBeforeTerminator(line: string, rest: string)
    requires LF !in line
    ensures LineEnd(line + [LF] + rest) == |line|
  {
    var s := line + [LF] + rest;
    assert s[|line|] == LF;
  }

  /** A line and its `'\n'` in front of a text add that line in front of its lines. */
  lemma LinesCons(line: string, rest: string)
    requires LF !in line && !EndsWithCr(line)
    ensures Lines(line + [LF] + rest) == [line] + Lines(rest)
  {
    var s := line + [LF] + rest;
    LineEndBeforeTerminator(line, rest);
    assert s[..|line|] == line;
    assert s[|line| + 1..] == rest;
  }

  /** A non-empty text without `'\n'` or a trailing `'\r'` is one line. */
  lemma SingleLine(s: string)
    requires s != [] && LF !in s && !EndsWithCr(s)
    ensures Lines(s) == [s]
  {
    assert forall i :: 0 <= i < |s| ==> s[i] in s;
    assert s[..|s|] == s;
  }

  /** Text written as lines each ending in `"\n"` reads back as those lines. */
  lemma {:induction false} LinesOfLfTerminated(lines: seq<string>)
    requires forall i :: 0 <= i < |lines| ==> LF !in lines[i] && !EndsWithCr(lines[i])
    ensures Lines(Terminated(lines, [LF])) == lines
  {
    if lines != [] {
      LinesCons(lines[0], Terminated(lines[1..], [LF]));
      LinesOfLfTerminated(lines[1..]);
      assert lines == [lines[0]] + lines[1..];
    }
  }

  /**
   * Text written as lines each ending in `"\r\n"` reads back as those lines,
   * even a line that itself ends in `'\r'`.
   */
  lemma {:induction false} LinesOfCrlfTerminated(lines: seq<string>)
    requires forall i :: 0 <= i < |lines| ==> LF !in lines[i]
    ensures Lines(Terminated(lines, [CR, LF])) == lines
  {
    if lines != [] {
      var rest := Terminated(lines[1..], [CR, LF]);
      var s := Terminated(lines, [CR, LF]);
      var withCr := lines[0] + [CR];
      assert s == withCr + [LF] + rest;
      LineEndBeforeTerminator(withCr, rest);
      assert s[..|withCr|] == withCr;
      assert s[|withCr| + 1..] == rest;
      assert StripCr(withCr) == lines[0] by {
        assert withCr[..|withCr| - 1] == lines[0];
      }
      assert Lines(s) == [lines[0]] + Lines(rest);
      LinesOfCrlfTerminated(lines[1..]);
      assert lines == [lines[0]] + lines[1..];
    }
  }

  /** The final line ending is optional: a last `'\n'` adds no empty line. */
  lemma {:induction false} FinalNewlineOptional(s: string)
    requires s != [] && s[|s| - 1] != LF
    ensures Lines(s + [LF]) == Lines(s)
    decreases |s|
  {
    var t := s + [LF];
    var k := LineEnd(s);
    if k == |s| {
      LineEndBeforeTerminator(s, []);
      assert t[..k] == s[..k];
      assert t[k + 1..] == [];
    } else {
      assert k < |s| - 1;
      assert LineEnd(t) == k by {
        assert t[k] == LF;
      }
      assert t[..k] == s[..k];
      assert t[k + 1..] == s[k + 1..] + [LF];
      FinalNewlineOptional(s[k + 1..]);
    }
  }

  predicate IsAsciiUpper(c: char) {
    'A' <= c <= 'Z'
  }

  /** ASCII `to_lowercase` of one character. */
  function LowerChar(c: char): char {
    if IsAsciiUpper(c) then (c as int + 32) as char else c
  }

  /**
   * `s.to_lowercase()`, restricted to ASCII letters: same length, every
   * upper-case letter replaced by its lower-case form, everything else kept.
   */
  function ToLowercase(s: string): (r: string)
    ensures |r| == |s|
    ensures forall i :: 0 <= i < |s| ==> !IsAsciiUpper(r[i])
    ensures forall i :: 0 <= i < |s| && !IsAsciiUpper(s[i]) ==> r[i] == s[i]
    ensures forall i :: 0 <= i < |s| && IsAsciiUpper(s[i]) ==> r[i] as int == s[i] as int + 32
  {
    seq(|s|, i requires 0 <= i < |s| => LowerChar(s[i]))
  }

  /** Lowercasing twice is lowercasing once. */
  lemma LowercaseIdempotent(s: string)
    ensures ToLowercase(ToLowercase(s)) == ToLowercase(s)
  {
  }

  /** The upper-case form of a lower-case ASCII letter. */
  function UpperOf(c: char): (u: char)
    requires 'a' <= c <= 'z'
    ensures IsAsciiUpper(u) && LowerChar(u) == c
  {
    (c as int - 32) as char
  }

  /** A lower-case letter is absent from the lowercase form of a text that has it in neither case. */
  lemma LowercaseAbsent(s: string, c: char)
    requires 'a' <= c <= 'z' && c !in s && UpperOf(c) !in s
    ensures c !in ToLowercase(s)
  {
    forall i | 0 <= i < |s| ensures ToLowercase(s)[i] != c {
      assert s[i] in s;
    }
  }

  /** Lowercasing commutes with taking a slice. */
  lemma LowercaseSlice(s: string, i: nat, j: nat)
    requires i <= j <= |s|
    ensures ToLowercase(s)[i..j] == ToLowercase(s[i..j])
  {
  }
}
