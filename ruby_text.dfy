/** The few pieces of Ruby's String and IO behaviour that the persisted
    formats rely on: `String#split(" ", 2)`, `String#to_i`, `Integer#to_s`,
    `Array#join` and reading a file line by line with `IO#each`. */
module RubyText {
  import opened Common

  /** The characters Ruby skips when it splits on " " and before it reads an integer. */
  predicate IsSpace(c: char) {
    c == ' ' || c == '\t' || c == '\n' || c == '\U{B}' || c == '\U{C}' || c == '\r'
  }

  predicate NoSpace(s: string) {
    forall i :: 0 <= i < |s| ==> !IsSpace(s[i])
  }

  predicate IsDigit(c: char) {
    '0' <= c <= '9'
  }

  predicate AllDigits(s: string) {
    forall i :: 0 <= i < |s| ==> IsDigit(s[i])
  }

  // ---------------------------------------------------------------------------
  // String#split(" ", 2)
  // ---------------------------------------------------------------------------

  /** `s` without its leading white space. */
  function DropSpace(s: string): (r: string)
    ensures |r| <= |s| && r == s[|s| - |r|..]
    ensures r == [] || !IsSpace(r[0])
  {
    if s != [] && IsSpace(s[0]) then DropSpace(s[1..]) else s
  }

  /** The longest prefix of `s` without white space. */
  function TakeWord(s: string): (r: string)
    ensures |r| <= |s| && r == s[..|r|]
    ensures NoSpace(r)
    ensures |r| == |s| || IsSpace(s[|r|])
  {
    if s != [] && !IsSpace(s[0]) then [s[0]] + TakeWord(s[1..]) else []
  }

  /** The array `split(" ", 2)` returns for a non-empty string: its first
      element, and its second one when there is one. */
  datatype Fields = Fields(first: string, rest: Option<string>)

  /** `line.split(" ", 2)` for a non-empty line (IO#each never yields an empty
      one). Leading white space is skipped; the first field runs up to the next
      white space; the rest, if any, starts after the white-space run that
      follows it. A line of white space alone gives `[""]`; a field with nothing
      after it gives one element; a field followed only by white space gives
      `[field, ""]`. */
  function SplitFirst(line: string): Fields
    requires line != []
  {
    var t := DropSpace(line);
    if t == [] then Fields("", None)
    else
      var w := TakeWord(t);
      var after := t[|w|..];
      if after == [] then Fields(w, None)
      else Fields(w, Some(DropSpace(after)))
  }

  /** A line made of a word, one blank and a remainder that does not start
      with white space splits back into that word and that remainder. */
  lemma {:induction false} SplitFirstOfWordAndRest(w: string, rest: string)
    requires w != [] && NoSpace(w)
    requires rest == [] || !IsSpace(rest[0])
    ensures SplitFirst(w + " " + rest) == Fields(w, Some(rest))
  {
    var line := w + " " + rest;
    assert line[0] == w[0];
    assert DropSpace(line) == line;
    TakeWordOfWordAndSpace(w, rest);
    var after := line[|w|..];
    assert after == " " + rest;
    assert after[1..] == rest;
    assert DropSpace(after) == DropSpace(rest) == rest;
  }

  lemma {:induction false} TakeWordOfWordAndSpace(w: string, rest: string)
    requires NoSpace(w)
    ensures TakeWord(w + " " + rest) == w
    decreases |w|
  {
    if w == [] {
      assert (w + " " + rest)[0] == ' ';
    } else {
      assert (w + " " + rest)[1..] == w[1..] + " " + rest;
      TakeWordOfWordAndSpace(w[1..], rest);
    }
  }

  /** `s.index(c)`, with `|s|` standing for `nil` (no occurrence). */
  function IndexOf(s: string, c: char): (i: nat)
    ensures i <= |s|
    ensures i < |s| ==> s[i] == c
    ensures c !in s[..i]
  {
    if s == [] then 0 else if s[0] == c then 0 else 1 + IndexOf(s[1..], c)
  }

  lemma {:induction false} IndexOfAfterPrefix(x: string, c: char, u: string)
    requires c !in x
    ensures IndexOf(x + [c] + u, c) == |x|
    decreases |x|
  {
    if x != [] {
      assert (x + [c] + u)[1..] == x[1..] + [c] + u;
      IndexOfAfterPrefix(x[1..], c, u);
    }
  }

  // ---------------------------------------------------------------------------
  // Integer#to_s and String#to_i
  // ---------------------------------------------------------------------------

  function DigitChar(d: nat): (c: char)
    requires d < 10
    ensures IsDigit(c)
  {
    ('0' as int + d) as char
  }

  function DigitValue(c: char): nat
    requires IsDigit(c)
  {
    c as int - '0' as int
  }

  /** The value of a run of decimal digits, most significant first. */
  function DigitsValue(ds: string): nat
    requires AllDigits(ds)
  {
    if ds == [] then 0 else DigitsValue(ds[..|ds| - 1]) * 10 + DigitValue(ds[|ds| - 1])
  }

  /** The longest prefix of `s` made of decimal digits. */
  function DigitPrefix(s: string): (r: string)
    ensures |r| <= |s| && r == s[..|r|]
    ensures AllDigits(r)
    ensures |r| == |s| || !IsDigit(s[|r|])
  {
    if s != [] && IsDigit(s[0]) then [s[0]] + DigitPrefix(s[1..]) else []
  }

  /** `String#to_i`: leading white space is skipped, then an optional sign,
      then as many decimal digits as follow; anything else ends the number,
      and no digits at all read as 0. */
  function ToI(s: string): int {
    var t := DropSpace(s);
    if t != [] && t[0] == '-' then 0 - DigitsValue(DigitPrefix(t[1..]))
    else if t != [] && t[0] == '+' then DigitsValue(DigitPrefix(t[1..]))
    else DigitsValue(DigitPrefix(t))
  }

  /** `pos.to_i` where `pos` may be `nil`: `nil.to_i` is 0. */
  function OptToI(s: Option<string>): int {
    if s.Some? then ToI(s.value) else 0
  }

  /** The decimal digits of `n`, without leading zeros. */
  function Digits(n: nat): (r: string)
    ensures r != [] && AllDigits(r)
  {
    if n < 10 then [DigitChar(n)] else Digits(n / 10) + [DigitChar(n % 10)]
  }

  /** `Integer#to_s`. */
  function IntToS(n: int): (r: string)
    ensures r != [] && NoSpace(r) && '\n' !in r
    ensures !IsSpace(r[0])
  {
    if n < 0 then "-" + Digits(-n) else Digits(n)
  }

  lemma {:induction false} DigitsValueOfDigits(n: nat)
    ensures DigitsValue(Digits(n)) == n
    decreases n
  {
    if n >= 10 {
      var ds := Digits(n);
      assert ds[..|ds| - 1] == Digits(n / 10);
      DigitsValueOfDigits(n / 10);
    }
  }

  lemma {:induction false} DigitPrefixOfDigits(ds: string, tail: string)
    requires AllDigits(ds)
    requires tail == [] || !IsDigit(tail[0])
    ensures DigitPrefix(ds + tail) == ds
    decreases |ds|
  {
    if ds != [] {
      assert (ds + tail)[1..] == ds[1..] + tail;
      DigitPrefixOfDigits(ds[1..], tail);
    }
  }

  /** Reading back what `Integer#to_s` wrote gives the same integer, whatever
      non-digit text follows it. */
  lemma ToIOfIntToS(n: int, tail: string)
    requires tail == [] || !IsDigit(tail[0])
    ensures ToI(IntToS(n) + tail) == n
  {
    if n < 0 {
      ToIOfNegativeIntToS(n, tail);
    } else {
      ToIOfNaturalIntToS(n, tail);
    }
  }

  lemma ToIOfNegativeIntToS(n: int, tail: string)
    requires n < 0
    requires tail == [] || !IsDigit(tail[0])
    ensures ToI(IntToS(n) + tail) == n
  {
    assert IntToS(n) == "-" + Digits(-n);
    ToIOfSignedDigits(Digits(-n), tail);
    DigitsValueOfDigits(-n);
  }

  lemma ToIOfNaturalIntToS(n: nat, tail: string)
    requires tail == [] || !IsDigit(tail[0])
    ensures ToI(IntToS(n) + tail) == n
  {
    assert IntToS(n) == Digits(n);
    ToIOfDigits(Digits(n), tail);
    DigitsValueOfDigits(n);
  }

  /** A run of digits followed by a non-digit reads as the digits' value. */
  lemma ToIOfDigits(ds: string, tail: string)
    requires ds != [] && AllDigits(ds)
    requires tail == [] || !IsDigit(tail[0])
    ensures ToI(ds + tail) == DigitsValue(ds)
  {
    var s := ds + tail;
    assert s[0] == ds[0];
    ToIOfUnsigned(s);
    DigitPrefixOfDigits(ds, tail);
  }

  /** '-' and a run of digits followed by a non-digit reads as the negated
      digits' value. */
  lemma ToIOfSignedDigits(ds: string, tail: string)
    requires AllDigits(ds)
    requires tail == [] || !IsDigit(tail[0])
    ensures ToI("-" + ds + tail) == 0 - DigitsValue(ds)
  {
    assert "-" + ds + tail == "-" + (ds + tail);
    ToIOfMinus(ds + tail);
    DigitPrefixOfDigits(ds, tail);
  }

  /** A string that starts with a digit reads as its leading digits. */
  lemma ToIOfUnsigned(s: string)
    requires s != [] && IsDigit(s[0])
    ensures ToI(s) == DigitsValue(DigitPrefix(s))
  {
    var t := DropSpace(s);
    assert t == s;
    assert !(t != [] && t[0] == '-') && !(t != [] && t[0] == '+');
  }

  /** '-' and the rest read as the negated leading digits of the rest. */
  lemma ToIOfMinus(rest: string)
    ensures ToI("-" + rest) == 0 - DigitsValue(DigitPrefix(rest))
  {
    var t := DropSpace("-" + rest);
    assert t == "-" + rest;
    assert t[1..] == rest;
  }

  // ---------------------------------------------------------------------------
  // IO#each and Array#join
  // ---------------------------------------------------------------------------

  /** The length of the first line of `text`, its terminating "\n" included. */
  function FirstLineLength(text: string): (n: nat)
    ensures n <= |text|
    ensures text != [] ==> n > 0
  {
    if text == [] then 0 else if text[0] == '\n' then 1 else 1 + FirstLineLength(text[1..])
  }

  /** The lines `IO#each` yields for a file holding `text`: each keeps its
      "\n", the last one may lack it, and none is empty. */
  function Lines(text: string): (ls: seq<string>)
    ensures forall i :: 0 <= i < |ls| ==> ls[i] != []
    decreases |text|
  {
    if text == [] then [] else
      var n := FirstLineLength(text);
      [text[..n]] + Lines(text[n..])
  }

  function Concat(ls: seq<string>): string {
    if ls == [] then "" else ls[0] + Concat(ls[1..])
  }

  /** `ls.join(sep)`. */
  function JoinWith(ls: seq<string>, sep: string): string {
    if ls == [] then "" else if |ls| == 1 then ls[0] else ls[0] + sep + JoinWith(ls[1..], sep)
  }

  /** Each line with a "\n" appended. */
  function Terminated(ls: seq<string>): (r: seq<string>)
    ensures |r| == |ls|
    ensures forall i :: 0 <= i < |ls| ==> r[i] == ls[i] + "\n"
  {
    if ls == [] then [] else [ls[0] + "\n"] + Terminated(ls[1..])
  }

  lemma TerminatedSnoc(ls: seq<string>, x: string)
    ensures Terminated(ls + [x]) == Terminated(ls) + [x + "\n"]
  {
    var r := Terminated(ls + [x]);
    assert forall i :: 0 <= i < |ls| ==> r[i] == ls[i] + "\n";
  }

  /** Reading a file line by line and gluing the lines together gives the file back. */
  lemma {:induction false} ConcatOfLines(text: string)
    ensures Concat(Lines(text)) == text
    decreases |text|
  {
    if text != [] {
      var n := FirstLineLength(text);
      ConcatOfLines(text[n..]);
      assert text == text[..n] + text[n..];
    }
  }

  lemma {:induction false} FirstLineLengthOfLine(l: string, rest: string)
    requires '\n' !in l
    ensures FirstLineLength(l + "\n" + rest) == |l| + 1
    decreases |l|
  {
    if l != [] {
      assert (l + "\n" + rest)[1..] == l[1..] + "\n" + rest;
      FirstLineLengthOfLine(l[1..], rest);
    }
  }

  /** Writing lines that hold no "\n", each followed by "\n", and reading the
      file back with `IO#each` gives the same lines, terminators included. */
  lemma {:induction false} LinesOfTerminated(ls: seq<string>)
    requires forall i :: 0 <= i < |ls| ==> '\n' !in ls[i]
    ensures Lines(Concat(Terminated(ls))) == Terminated(ls)
  {
    if ls != [] {
      var text := Concat(Terminated(ls));
      var rest := Concat(Terminated(ls[1..]));
      assert Terminated(ls)[1..] == Terminated(ls[1..]);
      assert text == ls[0] + "\n" + rest;
      FirstLineLengthOfLine(ls[0], rest);
      assert text[..|ls[0]| + 1] == ls[0] + "\n";
      assert text[|ls[0]| + 1..] == rest;
      LinesOfTerminated(ls[1..]);
    }
  }

  /** For at least one line, `ls.join("\n") + "\n"` is every line followed by "\n". */
  lemma {:induction false} JoinThenNewline(ls: seq<string>)
    requires ls != []
    ensures JoinWith(ls, "\n") + "\n" == Concat(Terminated(ls))
  {
    if |ls| > 1 {
      JoinThenNewline(ls[1..]);
      assert Terminated(ls)[1..] == Terminated(ls[1..]);
    } else {
      assert Terminated(ls)[1..] == [];
    }
  }
}
