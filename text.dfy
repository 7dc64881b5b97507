/** The few Python string operations the line parsers and the serialiser use:
    str.strip, str.split, str.split(sep), str.startswith, str.isdigit, int()
    on a decimal token, str() of an int, str.join and file.readlines. */
module Text {
  import opened Wrappers

  /** The characters str.isspace() accepts, which are the ones strip() and
      split() without arguments remove: the ASCII controls 9 to 13 and 28 to
      31, the space, and the Unicode separators and spaces. */
  predicate IsSpace(c: char) {
    ('\U{0009}' <= c <= '\U{000D}') || ('\U{001C}' <= c <= '\U{0020}') ||
    c == '\U{0085}' || c == '\U{00A0}' || c == '\U{1680}' ||
    ('\U{2000}' <= c <= '\U{200A}') || c == '\U{2028}' || c == '\U{2029}' ||
    c == '\U{202F}' || c == '\U{205F}' || c == '\U{3000}'
  }

  /** An ASCII decimal digit. */
  predicate IsDigit(c: char) {
    '0' <= c <= '9'
  }

  ghost predicate NoSpace(s: string) {
    forall i :: 0 <= i < |s| ==> !IsSpace(s[i])
  }

  ghost predicate AllSpace(s: string) {
    forall i :: 0 <= i < |s| ==> IsSpace(s[i])
  }

  predicate StartsWith(s: string, prefix: string) {
    |prefix| <= |s| && s[..|prefix|] == prefix
  }

  // ---------------------------------------------------------------------
  // strip

  /** s.lstrip(). */
  function StripLeft(s: string): (r: string)
    ensures |r| <= |s|
    decreases |s|
  {
    if |s| > 0 && IsSpace(s[0]) then StripLeft(s[1..]) else s
  }

  /** s.rstrip(). */
  function StripRight(s: string): (r: string)
    ensures |r| <= |s|
    decreases |s|
  {
    if |s| > 0 && IsSpace(s[|s| - 1]) then StripRight(s[..|s| - 1]) else s
  }

  /** str.strip(): drop leading and trailing whitespace. */
  function Strip(s: string): string {
    StripRight(StripLeft(s))
  }

  // ---------------------------------------------------------------------
  // split

  /** str.split() with no argument: the maximal runs of non-whitespace,
      in order; `cur` is the token being read. */
  function SplitFrom(s: string, cur: string): seq<string>
    decreases |s|
  {
    if |s| == 0 then (if |cur| == 0 then [] else [cur])
    else if IsSpace(s[0]) then (if |cur| == 0 then [] else [cur]) + SplitFrom(s[1..], [])
    else SplitFrom(s[1..], cur + [s[0]])
  }

  function Split(s: string): seq<string> {
    SplitFrom(s, [])
  }

  /** str.split(sep) for a one-character separator: the pieces between
      separators, always at least one. */
  function SplitOn(s: string, sep: char): (r: seq<string>)
    ensures |r| >= 1
    decreases |s|
  {
    if |s| == 0 then [""]
    else if s[0] == sep then [""] + SplitOn(s[1..], sep)
    else var rest := SplitOn(s[1..], sep); [[s[0]] + rest[0]] + rest[1..]
  }

  /** sep.join(pieces). */
  function Join(pieces: seq<string>, sep: string): string
    decreases |pieces|
  {
    if |pieces| == 0 then ""
    else if |pieces| == 1 then pieces[0]
    else pieces[0] + sep + Join(pieces[1..], sep)
  }

  // ---------------------------------------------------------------------
  // readlines

  /** The index just after the first newline of t, or |t| if there is none. */
  function LineEnd(t: string): (k: nat)
    requires |t| > 0
    ensures 0 < k <= |t|
    decreases |t|
  {
    if t[0] == '\n' || |t| == 1 then 1 else 1 + LineEnd(t[1..])
  }

  /** The lines of a text, each keeping its newline. */
  function SplitLines(t: string): seq<string>
    decreases |t|
  {
    if |t| == 0 then [] else [t[..LineEnd(t)]] + SplitLines(t[LineEnd(t)..])
  }

  /** The universal-newline translation of a file opened with open(f, 'r'):
      "\r\n" and a lone "\r" both become "\n". */
  function Universal(t: string): (u: string)
    ensures '\r' !in u && |u| <= |t|
    decreases |t|
  {
    if |t| == 0 then ""
    else if t[0] == '\r' then "\n" + Universal(if |t| > 1 && t[1] == '\n' then t[2..] else t[1..])
    else [t[0]] + Universal(t[1..])
  }

  /** file.readlines() in text mode: the lines of the translated text, each
      keeping its newline. */
  function ReadLines(t: string): seq<string> {
    SplitLines(Universal(t))
  }

  // ---------------------------------------------------------------------
  // integers

  function DigitValue(c: char): int
    requires IsDigit(c)
  {
    c as int - '0' as int
  }

  function DigitChar(d: int): (c: char)
    requires 0 <= d < 10
    ensures IsDigit(c) && DigitValue(c) == d
  {
    (d + '0' as int) as char
  }

  predicate AllDigits(s: string) {
    forall i :: 0 <= i < |s| ==> IsDigit(s[i])
  }

  /** str.isdigit() on ASCII text: non-empty and every character a digit. */
  predicate IsDigitString(s: string) {
    |s| > 0 && AllDigits(s)
  }

  function ParseNat(s: string): (n: nat)
    requires AllDigits(s)
  {
    if |s| == 0 then 0 else ParseNat(s[..|s| - 1]) * 10 + DigitValue(s[|s| - 1])
  }

  /** int(token) for a token without whitespace: an optional sign followed
      by at least one decimal digit; anything else raises ValueError. */
  function ParseInt(s: string): Result<int> {
    if |s| > 0 && (s[0] == '-' || s[0] == '+') then
      if IsDigitString(s[1..]) then Ok(if s[0] == '-' then -(ParseNat(s[1..]) as int) else ParseNat(s[1..]))
      else Err(ValueError)
    else if IsDigitString(s) then Ok(ParseNat(s))
    else Err(ValueError)
  }

  function NatToString(n: nat): (s: string)
    ensures IsDigitString(s)
  {
    if n < 10 then [DigitChar(n)] else NatToString(n / 10) + [DigitChar(n % 10)]
  }

  /** str(n) for an int. */
  function IntToString(n: int): string {
    if n < 0 then "-" + NatToString(-n) else NatToString(n)
  }

  // ---------------------------------------------------------------------
  // Lemmas

  /** lstrip leaves the suffix that remains once every leading whitespace
      character is dropped: all it drops is whitespace, and what it keeps
      does not start with whitespace. */
  lemma {:induction false} StripLeftDrops(s: string)
    ensures var r := StripLeft(s);
      r == s[|s| - |r|..] && AllSpace(s[..|s| - |r|]) && (|r| > 0 ==> !IsSpace(r[0]))
    decreases |s|
  {
    if |s| > 0 && IsSpace(s[0]) {
      StripLeftDrops(s[1..]);
      var r := StripLeft(s);
      assert r == StripLeft(s[1..]);
      assert s[1..][..|s| - 1 - |r|] == s[1..|s| - |r|];
    }
  }

  /** rstrip leaves the prefix that remains once every trailing whitespace
      character is dropped: all it drops is whitespace, and what it keeps
      does not end with whitespace. */
  lemma {:induction false} StripRightDrops(s: string)
    ensures var r := StripRight(s);
      r == s[..|r|] && AllSpace(s[|r|..]) && (|r| > 0 ==> !IsSpace(r[|r| - 1]))
    decreases |s|
  {
    if |s| > 0 && IsSpace(s[|s| - 1]) {
      var t := s[..|s| - 1];
      StripRightDrops(t);
      var r := StripRight(s);
      assert r == StripRight(t);
    }
  }

  /** split(sep) of a text without sep is that text alone. */
  lemma {:induction false} SplitOnNone(b: string, sep: char)
    requires sep !in b
    ensures SplitOn(b, sep) == [b]
    decreases |b|
  {
    if |b| > 0 {
      assert sep !in b[1..];
      SplitOnNone(b[1..], sep);
      assert [b[0]] + b[1..] == b;
    }
  }

  /** split(sep) cuts at the first sep. */
  lemma {:induction false} SplitOnFirst(a: string, b: string, sep: char)
    requires sep !in a
    ensures SplitOn(a + [sep] + b, sep) == [a] + SplitOn(b, sep)
    decreases |a|
  {
    if |a| == 0 {
      assert a + [sep] + b == [sep] + b && ([sep] + b)[1..] == b;
    } else {
      assert (a + [sep] + b)[1..] == a[1..] + [sep] + b;
      assert sep !in a[1..];
      SplitOnFirst(a[1..], b, sep);
      assert [a[0]] + a[1..] == a;
    }
  }

  /** A word followed by one whitespace character strips to the word. */
  lemma {:induction false} StripTrailing(w: string, c: char)
    requires |w| > 0 && !IsSpace(w[0]) && !IsSpace(w[|w| - 1]) && IsSpace(c)
    ensures Strip(w + [c]) == w
  {
    assert StripLeft(w + [c]) == w + [c];
    assert (w + [c])[..|w|] == w;
    assert StripRight(w + [c]) == StripRight(w) == w;
  }

  /** A word that neither starts nor ends with whitespace is its own strip,
      with or without one leading space. */
  lemma {:induction false} StripWord(w: string)
    requires |w| > 0 && !IsSpace(w[0]) && !IsSpace(w[|w| - 1])
    ensures Strip(w) == w && Strip(" " + w) == w
  {
    assert (" " + w)[1..] == w;
    assert StripLeft(" " + w) == StripLeft(w) == w;
  }

  /** A character absent from every piece and from the separator is absent
      from their join. */
  lemma {:induction false} JoinAvoids(pieces: seq<string>, sep: string, c: char)
    requires c !in sep && forall i :: 0 <= i < |pieces| ==> c !in pieces[i]
    ensures c !in Join(pieces, sep)
    decreases |pieces|
  {
    if |pieces| > 1 {
      JoinAvoids(pieces[1..], sep, c);
      assert forall i :: 0 <= i < |pieces| - 1 ==> pieces[1..][i] == pieces[i + 1];
    }
  }

  lemma {:induction false} NatToStringRoundTrip(n: nat)
    ensures ParseNat(NatToString(n)) == n
  {
    if n >= 10 {
      NatToStringRoundTrip(n / 10);
      var s := NatToString(n);
      assert s[..|s| - 1] == NatToString(n / 10);
    }
  }

  /** int(str(n)) == n. */
  lemma {:induction false} IntToStringRoundTrip(n: int)
    ensures ParseInt(IntToString(n)) == Ok(n)
  {
    NatToStringRoundTrip(if n < 0 then -n else n);
    var s := IntToString(n);
    if n < 0 {
      assert s[1..] == NatToString(-n);
    } else {
      assert IsDigit(s[0]);
    }
  }

  lemma {:induction false} IntToStringNoSpace(n: int)
    ensures |IntToString(n)| > 0 && NoSpace(IntToString(n))
  {
    var s := IntToString(n);
    if n >= 0 {
      assert forall i :: 0 <= i < |s| ==> IsDigit(s[i]);
    } else {
      var t := NatToString(-n);
      assert forall i :: 0 <= i < |t| ==> IsDigit(t[i]);
      assert forall i :: 1 <= i < |s| ==> s[i] == t[i - 1];
    }
  }

  /** Reading a word carries on the current token. */
  lemma {:induction false} SplitFromWord(w: string, rest: string, cur: string)
    requires NoSpace(w)
    ensures SplitFrom(w + rest, cur) == SplitFrom(rest, cur + w)
    decreases |w|
  {
    if |w| > 0 {
      assert (w + rest)[1..] == w[1..] + rest;
      SplitFromWord(w[1..], rest, cur + [w[0]]);
      assert cur + [w[0]] + w[1..] == cur + w;
    } else {
      assert w + rest == rest;
      assert cur + w == cur;
    }
  }

  /** Whitespace alone yields the pending token, if any. */
  lemma {:induction false} SplitFromSpaces(t: string, cur: string)
    requires AllSpace(t)
    ensures SplitFrom(t, cur) == if |cur| == 0 then [] else [cur]
    decreases |t|
  {
    if |t| > 0 {
      SplitFromSpaces(t[1..], []);
    }
  }

  /** split() undoes " ".join(tokens) (followed by trailing whitespace) when no
      token is empty or contains whitespace. */
  lemma {:induction false} SplitJoin(tokens: seq<string>, tail: string)
    requires forall i :: 0 <= i < |tokens| ==> |tokens[i]| > 0 && NoSpace(tokens[i])
    requires AllSpace(tail)
    ensures SplitFrom(Join(tokens, " ") + tail, []) == tokens
    decreases |tokens|
  {
    if |tokens| == 0 {
      assert Join(tokens, " ") + tail == tail;
      SplitFromSpaces(tail, []);
    } else if |tokens| == 1 {
      assert Join(tokens, " ") == tokens[0];
      SplitFromWord(tokens[0], tail, []);
      assert [] + tokens[0] == tokens[0];
      SplitFromSpaces(tail, tokens[0]);
    } else {
      var rest := Join(tokens[1..], " ") + tail;
      assert Join(tokens, " ") + tail == tokens[0] + (" " + rest);
      SplitFromWord(tokens[0], " " + rest, []);
      assert [] + tokens[0] == tokens[0];
      assert (" " + rest)[1..] == rest;
      assert SplitFrom(" " + rest, tokens[0]) == [tokens[0]] + SplitFrom(rest, []);
      SplitJoin(tokens[1..], tail);
      assert tokens == [tokens[0]] + tokens[1..];
    }
  }

  /** A text without carriage returns is read as it stands. */
  lemma {:induction false} UniversalPlain(t: string)
    requires '\r' !in t
    ensures Universal(t) == t
    decreases |t|
  {
    if |t| > 0 {
      assert '\r' !in t[1..];
      UniversalPlain(t[1..]);
    }
  }

  /** A prefix without carriage returns is read as it stands. */
  lemma {:induction false} UniversalPrefix(a: string, t: string)
    requires '\r' !in a
    ensures Universal(a + t) == a + Universal(t)
    decreases |a|
  {
    if |a| > 0 {
      assert (a + t)[1..] == a[1..] + t;
      assert '\r' !in a[1..];
      UniversalPrefix(a[1..], t);
      assert [a[0]] + a[1..] == a;
    } else {
      assert a + t == t;
    }
  }

  /** "\r\n" and a lone "\r" end a line as "\n" does. */
  lemma {:induction false} UniversalEndings(a: string, b: string)
    requires '\r' !in a && (|b| == 0 || b[0] != '\n')
    ensures Universal(a + "\r\n" + b) == a + "\n" + Universal(b)
    ensures Universal(a + "\r" + b) == a + "\n" + Universal(b)
  {
    assert a + "\r\n" + b == a + ("\r\n" + b) && ("\r\n" + b)[2..] == b;
    assert a + "\r" + b == a + ("\r" + b) && ("\r" + b)[1..] == b;
    UniversalPrefix(a, "\r\n" + b);
    UniversalPrefix(a, "\r" + b);
  }

  /** readlines() undoes "\n".join(lines) for non-empty lines without line
      ends: every line but the last comes back with its newline. */
  lemma {:induction false} ReadLinesJoin(lines: seq<string>)
    requires forall i :: 0 <= i < |lines| ==> |lines[i]| > 0 && '\n' !in lines[i] && '\r' !in lines[i]
    ensures |ReadLines(Join(lines, "\n"))| == |lines|
    ensures forall i :: 0 <= i < |lines| ==>
      ReadLines(Join(lines, "\n"))[i] == lines[i] + (if i < |lines| - 1 then "\n" else "")
  {
    JoinAvoids(lines, "\n", '\r');
    UniversalPlain(Join(lines, "\n"));
    SplitLinesJoin(lines);
  }

  /** The same for the line split on its own. */
  lemma {:induction false} SplitLinesJoin(lines: seq<string>)
    requires forall i :: 0 <= i < |lines| ==> |lines[i]| > 0 && '\n' !in lines[i]
    ensures |SplitLines(Join(lines, "\n"))| == |lines|
    ensures forall i :: 0 <= i < |lines| ==>
      SplitLines(Join(lines, "\n"))[i] == lines[i] + (if i < |lines| - 1 then "\n" else "")
    decreases |lines|
  {
    if |lines| == 1 {
      LineEndNoNewline(lines[0]);
    } else if |lines| > 1 {
      var t := Join(lines, "\n");
      var rest := Join(lines[1..], "\n");
      assert t == lines[0] + "\n" + rest;
      LineEndFirst(lines[0], rest);
      assert t[..LineEnd(t)] == lines[0] + "\n";
      assert t[LineEnd(t)..] == rest;
      SplitLinesJoin(lines[1..]);
    }
  }

  /** A text without a line end is one line. */
  lemma {:induction false} LineEndNoNewline(l: string)
    requires |l| > 0 && '\n' !in l
    ensures LineEnd(l) == |l|
    ensures SplitLines(l) == [l]
    decreases |l|
  {
    if |l| > 1 {
      assert '\n' !in l[1..];
      LineEndNoNewline(l[1..]);
    }
    assert l[..LineEnd(l)] == l;
    assert l[LineEnd(l)..] == [];
  }

  lemma {:induction false} LineEndFirst(l: string, rest: string)
    requires '\n' !in l
    ensures LineEnd(l + "\n" + rest) == |l| + 1
    decreases |l|
  {
    if |l| > 0 {
      assert (l + "\n" + rest)[1..] == l[1..] + "\n" + rest;
      LineEndFirst(l[1..], rest);
    }
  }
}
