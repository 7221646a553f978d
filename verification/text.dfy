/** Text as sequences of characters: stripping, splitting, joining and decimal digits,
    with the laws the parsers and printers of this project rely on.  Lines end at '\n' only. */
module Text {

  datatype Option<+T> = None | Some(value: T)

  // ---------- whitespace ----------

  predicate IsSpace(c: char) {
    c == ' ' || c == '\t' || c == '\n' || c == '\r' || c == '\U{B}' || c == '\U{C}'
  }

  predicate Blank(s: string) {
    forall i :: 0 <= i < |s| ==> IsSpace(s[i])
  }

  predicate Trimmed(s: string) {
    s == "" || (!IsSpace(s[0]) && !IsSpace(s[|s| - 1]))
  }

  function LStrip(s: string): string {
    if s != "" && IsSpace(s[0]) then LStrip(s[1..]) else s
  }

  function RStrip(s: string): string {
    if s != "" && IsSpace(s[|s| - 1]) then RStrip(s[..|s| - 1]) else s
  }

  function Strip(s: string): string {
    LStrip(RStrip(s))
  }

  lemma {:induction false} LStripSplits(s: string) returns (a: string)
    ensures s == a + LStrip(s) && Blank(a)
    ensures LStrip(s) == "" || !IsSpace(LStrip(s)[0])
  {
    if s != "" && IsSpace(s[0]) {
      var a' := LStripSplits(s[1..]);
      a := [s[0]] + a';
      assert s == [s[0]] + s[1..];
    } else {
      a := "";
    }
  }

  lemma {:induction false} RStripSplits(s: string) returns (b: string)
    ensures s == RStrip(s) + b && Blank(b)
    ensures RStrip(s) == "" || !IsSpace(RStrip(s)[|RStrip(s)| - 1])
  {
    if s != "" && IsSpace(s[|s| - 1]) {
      var b' := RStripSplits(s[..|s| - 1]);
      b := b' + [s[|s| - 1]];
      assert s == s[..|s| - 1] + [s[|s| - 1]];
    } else {
      b := "";
    }
  }

  /** A stripped text is the middle of the original, with only whitespace around it. */
  lemma StripSplits(s: string) returns (a: string, b: string)
    ensures s == a + Strip(s) + b && Blank(a) && Blank(b) && Trimmed(Strip(s))
  {
    b := RStripSplits(s);
    a := LStripSplits(RStrip(s));
    var m := Strip(s);
    if m != "" {
      assert RStrip(s)[|RStrip(s)| - 1] == m[|m| - 1];
    }
  }

  lemma {:induction false} LStripDrops(a: string, m: string)
    requires Blank(a) && (m == "" || !IsSpace(m[0]))
    ensures LStrip(a + m) == m
  {
    if a == "" {
      assert a + m == m;
    } else {
      assert (a + m)[0] == a[0];
      assert (a + m)[1..] == a[1..] + m;
      LStripDrops(a[1..], m);
    }
  }

  lemma {:induction false} RStripDrops(m: string, b: string)
    requires Blank(b) && (m == "" || !IsSpace(m[|m| - 1]))
    ensures RStrip(m + b) == m
  {
    if b == "" {
      assert m + b == m;
    } else {
      assert (m + b)[|m + b| - 1] == b[|b| - 1];
      assert (m + b)[..|m + b| - 1] == m + b[..|b| - 1];
      RStripDrops(m, b[..|b| - 1]);
    }
  }

  /** Whatever trimmed text sits between whitespace is what stripping returns. */
  lemma StripFinds(a: string, m: string, b: string)
    requires Blank(a) && Blank(b) && Trimmed(m)
    ensures Strip(a + m + b) == m
  {
    if m == "" {
      assert a + m + b == "" + (a + b);
      RStripDrops("", a + b);
    } else {
      assert (a + m)[|a + m| - 1] == m[|m| - 1];
      RStripDrops(a + m, b);
      LStripDrops(a, m);
    }
  }

  lemma StripPadded(a: string, s: string, b: string)
    requires Blank(a) && Blank(b)
    ensures Strip(a + s + b) == Strip(s)
  {
    var x, y := StripSplits(s);
    assert a + s + b == (a + x) + Strip(s) + (y + b);
    StripFinds(a + x, Strip(s), y + b);
  }

  lemma StripShortens(s: string)
    ensures |Strip(s)| <= |s|
  {
    var a, b := StripSplits(s);
  }

  lemma StripKeepsChars(s: string, c: char)
    ensures c in Strip(s) ==> c in s
  {
    var a, b := StripSplits(s);
    if c in Strip(s) {
      var i :| 0 <= i < |Strip(s)| && Strip(s)[i] == c;
      assert s[|a| + i] == c;
    }
  }

  lemma StripKeepsSolid(s: string, i: nat)
    requires i < |s| && !IsSpace(s[i])
    ensures Strip(s) != ""
  {
    var a, b := StripSplits(s);
    assert Blank(a + b);
  }

  lemma BlankStripsAway(s: string)
    ensures Blank(s) <==> Strip(s) == ""
  {
    var a, b := StripSplits(s);
    if Strip(s) == "" {
      assert s == a + b;
    } else {
      assert s[|a|] == Strip(s)[0];
    }
  }

  // ---------- splitting and joining ----------

  function Split(s: string, sep: char): (r: seq<string>)
    ensures |r| > 0
  {
    if s == "" then [""]
    else
      var rest := Split(s[1..], sep);
      if s[0] == sep then [""] + rest else [[s[0]] + rest[0]] + rest[1..]
  }

  function Join(parts: seq<string>, sep: string): string {
    if |parts| == 0 then ""
    else if |parts| == 1 then parts[0]
    else parts[0] + sep + Join(parts[1..], sep)
  }

  function Last<T>(s: seq<T>): T
    requires s != []
  {
    s[|s| - 1]
  }

  function Front<T>(s: seq<T>): seq<T>
    requires s != []
  {
    s[..|s| - 1]
  }

  function RemovePrefix(s: string, prefix: string): string {
    if prefix <= s then s[|prefix|..] else s
  }

  lemma Assoc<T>(a: seq<T>, b: seq<T>, c: seq<T>)
    ensures a + (b + c) == (a + b) + c
  {
  }

  lemma {:induction false} SplitAppend(a: string, sep: char, b: string)
    ensures Split(a + [sep] + b, sep) == Split(a, sep) + Split(b, sep)
  {
    if a == "" {
      assert a + [sep] + b == [sep] + b;
    } else {
      var s := a + [sep] + b;
      assert s[1..] == a[1..] + [sep] + b;
      SplitAppend(a[1..], sep, b);
    }
  }

  lemma {:induction false} SplitFree(a: string, sep: char)
    requires sep !in a
    ensures Split(a, sep) == [a]
  {
    if a != "" {
      assert a[0] in a;
      SplitFree(a[1..], sep);
      assert a == [a[0]] + a[1..];
    }
  }

  lemma {:induction false} SplitPartsFree(s: string, sep: char)
    ensures forall p :: p in Split(s, sep) ==> sep !in p
  {
    if s != "" {
      SplitPartsFree(s[1..], sep);
      var rest := Split(s[1..], sep);
      assert sep !in rest[0];
    }
  }

  lemma {:induction false} JoinSplit(s: string, sep: char)
    ensures Join(Split(s, sep), [sep]) == s
  {
    if s != "" {
      JoinSplit(s[1..], sep);
      var rest := Split(s[1..], sep);
      if s[0] == sep {
        assert ([""] + rest)[1..] == rest;
      } else {
        var r := [[s[0]] + rest[0]] + rest[1..];
        assert r[1..] == rest[1..];
      }
    }
  }

  lemma {:induction false} SplitJoin(parts: seq<string>, sep: char)
    requires parts != [] && forall p :: p in parts ==> sep !in p
    ensures Split(Join(parts, [sep]), sep) == parts
  {
    SplitFree(parts[0], sep);
    if |parts| > 1 {
      SplitJoin(parts[1..], sep);
      SplitAppend(parts[0], sep, Join(parts[1..], [sep]));
      assert parts == [parts[0]] + parts[1..];
    }
  }

  lemma {:induction false} JoinAppend(a: seq<string>, b: seq<string>, sep: string)
    requires a != [] && b != []
    ensures Join(a + b, sep) == Join(a, sep) + sep + Join(b, sep)
  {
    if |a| == 1 {
      assert (a + b)[1..] == b;
    } else {
      assert (a + b)[1..] == a[1..] + b;
      JoinAppend(a[1..], b, sep);
    }
  }

  /** The text's last part after the final separator is cut off the end of the text. */
  lemma {:induction false} SplitExtendLast(s: string, t: string, sep: char)
    requires sep !in t
    ensures Split(s + t, sep) == Front(Split(s, sep)) + [Last(Split(s, sep)) + t]
  {
    if s == "" {
      assert s + t == t;
      SplitFree(t, sep);
    } else {
      assert (s + t)[1..] == s[1..] + t;
      SplitExtendLast(s[1..], t, sep);
      var rest := Split(s[1..], sep);
      if s[0] == sep {
        assert Front([""] + rest) == [""] + Front(rest);
      } else if |rest| == 1 {
        assert [s[0]] + (rest[0] + t) == [s[0]] + rest[0] + t;
      }
    }
  }

  // ---------- lines ----------

  /** The lines of a text; a final newline ends the last line and opens no new one. */
  function Lines(text: string): seq<string> {
    var parts := Split(text, '\n');
    if Last(parts) == "" then Front(parts) else parts
  }

  lemma LinesTerminated(text: string)
    ensures Lines(text + "\n") == Split(text, '\n')
  {
    SplitAppend(text, '\n', "");
    assert text + "\n" + "" == text + "\n";
    assert Split("", '\n') == [""];
    assert Split(text + "\n", '\n') == Split(text, '\n') + [""];
  }

  lemma LinesFree(text: string)
    ensures forall l :: l in Lines(text) ==> '\n' !in l
  {
    SplitPartsFree(text, '\n');
  }

  // ---------- decimal numbers ----------

  type Digit = d: nat | d < 10

  function Digits(n: nat): (r: seq<Digit>)
    ensures |r| > 0
  {
    if n < 10 then [n] else Digits(n / 10) + [n % 10]
  }

  function Value(ds: seq<Digit>): nat {
    if ds == [] then 0 else 10 * Value(Front(ds)) + Last(ds)
  }

  lemma {:induction false} ValueOfDigits(n: nat)
    ensures Value(Digits(n)) == n
  {
    if n >= 10 {
      ValueOfDigits(n / 10);
      assert Front(Digits(n)) == Digits(n / 10);
    } else {
      assert Front(Digits(n)) == [];
      assert Value([]) == 0;
    }
  }

  function DigitChar(d: Digit): (c: char)
    ensures '0' <= c <= '9'
  {
    '0' + d as char
  }

  /** The decimal spelling of a number. */
  function Decimal(n: nat): (r: string)
    ensures |r| > 0
  {
    var ds := Digits(n);
    seq(|ds|, i requires 0 <= i < |ds| => DigitChar(ds[i]))
  }

  lemma DecimalInjective(m: nat, n: nat)
    requires Decimal(m) == Decimal(n)
    ensures m == n
  {
    var a, b := Digits(m), Digits(n);
    assert |a| == |Decimal(m)| == |Decimal(n)| == |b|;
    forall i | 0 <= i < |a|
      ensures a[i] == b[i]
    {
      assert Decimal(m)[i] == DigitChar(a[i]);
      assert Decimal(n)[i] == DigitChar(b[i]);
    }
    assert a == b;
    ValueOfDigits(m);
    ValueOfDigits(n);
  }
}
