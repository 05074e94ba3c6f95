/** Edge-list ingestion: which lines of the input become edges, and how the
    two ids are read from such a line. */
module Parsing {
  import opened GraphSpec

  datatype Option<T> = None | Some(value: T)

  /** The characters the stream extractor treats as white space. */
  predicate IsSpace(c: char) {
    c == ' ' || c == '\t' || c == '\n' || c == '\r' || c == '\U{B}' || c == '\U{C}'
  }

  predicate IsDigit(c: char) {
    '0' as int <= c as int <= '9' as int
  }

  /** A non-empty run of decimal digits. */
  predicate IsDigits(s: string) {
    |s| > 0 && forall j :: 0 <= j < |s| ==> IsDigit(s[j])
  }

  /** Drops the leading white space, as the extractor does before each token. */
  function SkipSpace(s: string): string
  {
    if s != [] && IsSpace(s[0]) then SkipSpace(s[1..]) else s
  }

  /** Splits `s` into its longest prefix without white space and the rest. */
  function TakeWord(s: string): (string, string)
  {
    if s == [] || IsSpace(s[0]) then ([], s)
    else
      var (w, rest) := TakeWord(s[1..]);
      ([s[0]] + w, rest)
  }

  /** The next white-space separated token of `s` and what follows it. */
  function NextToken(s: string): (string, string)
  {
    TakeWord(SkipSpace(s))
  }

  /** Skipping drops a prefix made only of white space and stops at the
      first character that is not white space. */
  lemma {:induction false} SkipSpaceSpec(s: string)
    ensures |SkipSpace(s)| <= |s| && SkipSpace(s) == s[|s| - |SkipSpace(s)|..]
    ensures forall j :: 0 <= j < |s| - |SkipSpace(s)| ==> IsSpace(s[j])
    ensures SkipSpace(s) == [] || !IsSpace(SkipSpace(s)[0])
  {
    if s != [] && IsSpace(s[0]) {
      var t := s[1..];
      SkipSpaceSpec(t);
      var r := SkipSpace(t);
      assert SkipSpace(s) == r;
      assert s[|s| - |r|..] == t[|t| - |r|..];
      forall j | 0 <= j < |s| - |r| ensures IsSpace(s[j]) {
        if j > 0 {
          assert s[j] == t[j - 1];
        }
      }
    }
  }

  /** A word is a maximal prefix without white space: the word and the rest
      put back together give the input, and the rest is empty or starts
      with white space. */
  lemma {:induction false} TakeWordSpec(s: string)
    ensures TakeWord(s).0 + TakeWord(s).1 == s
    ensures forall j :: 0 <= j < |TakeWord(s).0| ==> !IsSpace(TakeWord(s).0[j])
    ensures TakeWord(s).1 == [] || IsSpace(TakeWord(s).1[0])
  {
    if s != [] && !IsSpace(s[0]) {
      TakeWordSpec(s[1..]);
      var (w, rest) := TakeWord(s[1..]);
      var word := [s[0]] + w;
      assert TakeWord(s) == (word, rest);
      assert s == [s[0]] + s[1..];
      forall j | 0 <= j < |word| ensures !IsSpace(word[j]) {
        if j > 0 {
          assert word[j] == w[j - 1];
        }
      }
    }
  }

  /** The next token is preceded in `s` only by white space, holds none,
      is empty only when nothing but white space is left, and is followed
      by the end of `s` or by white space. */
  lemma NextTokenSpec(s: string)
    ensures |NextToken(s).0| + |NextToken(s).1| <= |s|
    ensures s[|s| - |NextToken(s).0| - |NextToken(s).1|..] == NextToken(s).0 + NextToken(s).1
    ensures forall j :: 0 <= j < |s| - |NextToken(s).0| - |NextToken(s).1| ==> IsSpace(s[j])
    ensures forall j :: 0 <= j < |NextToken(s).0| ==> !IsSpace(NextToken(s).0[j])
    ensures NextToken(s).0 == [] <==> SkipSpace(s) == []
    ensures NextToken(s).1 == [] || IsSpace(NextToken(s).1[0])
  {
    SkipSpaceSpec(s);
    TakeWordSpec(SkipSpace(s));
  }

  function DigitsValue(ds: string): nat
    requires forall j :: 0 <= j < |ds| ==> IsDigit(ds[j])
  {
    if ds == [] then 0
    else
      assert IsDigit(ds[|ds| - 1]);
      DigitsValue(ds[..|ds| - 1]) * 10 + (ds[|ds| - 1] as int - '0' as int)
  }

  /** A token reads as an int when it is an optional sign followed by digits. */
  function ParseInt(tok: string): (r: Option<int>)
    ensures r.Some? ==> tok != [] && forall j :: 0 <= j < |tok| ==> !IsSpace(tok[j])
    ensures r.Some? && r.value < 0 ==> tok[0] == '-'
    ensures IsDigits(tok) ==> r.Some? && r.value >= 0
  {
    if IsDigits(tok) then Some(DigitsValue(tok))
    else if |tok| > 1 && tok[0] == '-' && IsDigits(tok[1..]) then Some(-(DigitsValue(tok[1..]) as int))
    else if |tok| > 1 && tok[0] == '+' && IsDigits(tok[1..]) then Some(DigitsValue(tok[1..]))
    else None
  }

  /** Reading two ints from the start of a line: the first two tokens must
      read as ints; any further tokens are ignored. */
  function ReadPair(line: string): (r: Option<Edge>)
    ensures r.Some? ==> ParseInt(NextToken(line).0) == Some(r.value.0)
    ensures r.Some? ==> ParseInt(NextToken(NextToken(line).1).0) == Some(r.value.1)
    ensures r.None? ==> ParseInt(NextToken(line).0).None? || ParseInt(NextToken(NextToken(line).1).0).None?
  {
    var (t1, rest) := NextToken(line);
    var (t2, _) := NextToken(rest);
    match (ParseInt(t1), ParseInt(t2))
    case (Some(a), Some(b)) => Some((a, b))
    case _ => None
  }

  /** A line gives an edge when it is non-empty, does not start with `#`, and
      two ints can be read from it. */
  function ParseLine(line: string): (r: Option<Edge>)
    ensures r.Some? ==> line != [] && line[0] != '#'
  {
    if line == [] || line[0] == '#' then None else ReadPair(line)
  }

  /** The edge a single line contributes: none or one. */
  function LineEdges(line: string): (r: seq<Edge>)
    ensures |r| <= 1
  {
    match ParseLine(line)
    case Some(e) => [e]
    case None => []
  }

  /** Some line of `lines` reads as the edge `e`. */
  predicate FromSomeLine(lines: seq<string>, e: Edge) {
    exists i :: 0 <= i < |lines| && ParseLine(lines[i]) == Some(e)
  }

  /** The edges of the accepted lines, in line order, duplicates kept. */
  function ParseEdges(lines: seq<string>): (r: seq<Edge>)
    ensures |r| <= |lines|
  {
    if lines == [] then [] else ParseEdges(lines[..|lines| - 1]) + LineEdges(lines[|lines| - 1])
  }

  /** Every edge read comes from some line of the input. */
  lemma {:induction false} ParseEdgesFrom(lines: seq<string>)
    ensures forall e :: e in ParseEdges(lines) ==> FromSomeLine(lines, e)
  {
    if lines != [] {
      var init, last := lines[..|lines| - 1], lines[|lines| - 1];
      ParseEdgesFrom(init);
      forall e | e in ParseEdges(lines) ensures FromSomeLine(lines, e) {
        if e in ParseEdges(init) {
          var i :| 0 <= i < |init| && ParseLine(init[i]) == Some(e);
          assert lines[i] == init[i];
        } else {
          assert ParseLine(lines[|lines| - 1]) == Some(e);
        }
      }
    }
  }

  /** Number of lines that give an edge. */
  function AcceptedLines(lines: seq<string>): (r: nat)
    ensures r <= |lines|
    ensures r == 0 <==> forall i :: 0 <= i < |lines| ==> ParseLine(lines[i]).None?
  {
    if lines == [] then 0
    else AcceptedLines(lines[1..]) + (if ParseLine(lines[0]).Some? then 1 else 0)
  }

  /** Reading one more line adds that line's edge, if any, at the end. */
  lemma ParseEdgesSnoc(lines: seq<string>, line: string)
    ensures ParseEdges(lines + [line]) == ParseEdges(lines) + LineEdges(line)
  {
    var t := lines + [line];
    assert t[..|t| - 1] == lines && t[|t| - 1] == line;
  }

  /** Ingestion is line by line: the edges of two blocks of lines are the
      edges of the first followed by those of the second. */
  lemma {:induction false} ParseEdgesAppend(a: seq<string>, b: seq<string>)
    ensures ParseEdges(a + b) == ParseEdges(a) + ParseEdges(b)
  {
    if b != [] {
      var init, last := b[..|b| - 1], b[|b| - 1];
      assert b == init + [last];
      assert a + b == (a + init) + [last];
      ParseEdgesAppend(a, init);
      ParseEdgesSnoc(a + init, last);
      ParseEdgesSnoc(init, last);
    } else {
      assert a + b == a;
    }
  }

  /** One edge per accepted line, duplicates counted. */
  lemma {:induction false} ParseEdgesCount(lines: seq<string>)
    ensures |ParseEdges(lines)| == AcceptedLines(lines)
  {
    if lines != [] {
      ParseEdgesCount(lines[1..]);
      ParseEdgesAppend([lines[0]], lines[1..]);
      assert [lines[0]] + lines[1..] == lines;
      assert [lines[0]][..0] == [];
    }
  }

  function DigitChar(n: nat): (c: char)
    requires n < 10
    ensures IsDigit(c) && c as int - '0' as int == n
  {
    ('0' as int + n) as char
  }

  /** Decimal notation of a natural number. */
  function ShowNat(n: nat): (s: string)
    ensures IsDigits(s)
  {
    if n < 10 then [DigitChar(n)] else ShowNat(n / 10) + [DigitChar(n % 10)]
  }

  /** Decimal notation of an int, with a leading `-` when negative. */
  function ShowInt(n: int): (s: string)
    ensures |s| > 0 && forall j :: 0 <= j < |s| ==> !IsSpace(s[j]) && s[j] != '#'
  {
    if n < 0 then "-" + ShowNat(-n) else ShowNat(n)
  }

  lemma {:induction false} DigitsValueShowNat(n: nat)
    ensures DigitsValue(ShowNat(n)) == n
  {
    if n >= 10 {
      DigitsValueShowNat(n / 10);
      var s := ShowNat(n);
      assert s[..|s| - 1] == ShowNat(n / 10);
    }
  }

  /** Every int written in decimal reads back as itself. */
  lemma ParseIntShow(n: int)
    ensures ParseInt(ShowInt(n)) == Some(n)
  {
    if n < 0 {
      DigitsValueShowNat(-n);
      var s := ShowInt(n);
      assert s[1..] == ShowNat(-n);
      assert !IsDigit(s[0]);
    } else {
      DigitsValueShowNat(n);
    }
  }

  lemma {:induction false} TakeWordPrefix(w: string, tail: string)
    requires forall j :: 0 <= j < |w| ==> !IsSpace(w[j])
    requires tail == [] || IsSpace(tail[0])
    ensures TakeWord(w + tail) == (w, tail)
  {
    if w != [] {
      TakeWordPrefix(w[1..], tail);
      assert (w + tail)[1..] == w[1..] + tail;
      assert (w + tail)[0] == w[0] && !IsSpace(w[0]);
      assert [w[0]] + w[1..] == w;
      var s := w + tail;
      assert !(s == [] || IsSpace(s[0]));
      assert TakeWord(s) == ([s[0]] + TakeWord(s[1..]).0, TakeWord(s[1..]).1);
    } else {
      assert w + tail == tail;
    }
  }

  /** A word without white space followed by nothing or by white space is
      read as the next token. */
  lemma NextTokenWord(w: string, tail: string)
    requires w != [] && forall j :: 0 <= j < |w| ==> !IsSpace(w[j])
    requires tail == [] || IsSpace(tail[0])
    ensures NextToken(w + tail) == (w, tail)
  {
    assert (w + tail)[0] == w[0];
    assert SkipSpace(w + tail) == w + tail;
    TakeWordPrefix(w, tail);
  }

  lemma SkipOneSpace(x: string)
    requires x != [] && !IsSpace(x[0])
    ensures SkipSpace(" " + x) == x
  {
    assert (" " + x)[1..] == x;
  }

  /** A line holding two ids written in decimal and separated by a space,
      possibly followed by further space-separated text, gives exactly that
      edge. */
  lemma ParseLineShow(a: int, b: int, extra: string)
    requires extra == [] || IsSpace(extra[0])
    ensures ParseLine(ShowInt(a) + " " + ShowInt(b) + extra) == Some((a, b))
  {
    var sa, sb := ShowInt(a), ShowInt(b);
    var rest := " " + sb + extra;
    assert sa + " " + sb + extra == sa + rest;
    NextTokenWord(sa, rest);
    assert (sb + extra)[0] == sb[0];
    assert rest == " " + (sb + extra);
    SkipOneSpace(sb + extra);
    TakeWordPrefix(sb, extra);
    ParseIntShow(a);
    ParseIntShow(b);
    assert ReadPair(sa + rest) == Some((a, b));
  }

  /** Blank lines and comment lines never give an edge. */
  lemma CommentsIgnored(lines: seq<string>, c: string)
    requires c == [] || c[0] == '#'
    ensures ParseEdges(lines + [c]) == ParseEdges(lines)
  {
    assert (lines + [c])[..|lines|] == lines;
  }
}
