/** The Git history export: a byte stream of command lines and length-prefixed data blocks that is
    read, cleaned record by record, and written again with recomputed lengths. */
module GitStream {
  import opened Text

  newtype byte = b: int | 0 <= b < 256

  type Bytes = seq<byte>

  datatype Record = CommandLine(bytes: Bytes) | DataBlock(bytes: Bytes)

  datatype Parsed = Records(records: seq<Record>) | BadLength | Incomplete

  const NEWLINE: byte := 10
  const DATA_PREFIX: Bytes := [100, 97, 116, 97, 32]

  // ---------- decimal lengths ----------

  function DigitByte(d: Digit): byte {
    (48 + d) as byte
  }

  predicate IsDigit(b: byte) {
    48 <= b < 58
  }

  function ToBytes(ds: seq<Digit>): (r: Bytes)
    ensures |r| == |ds|
  {
    seq(|ds|, i requires 0 <= i < |ds| => DigitByte(ds[i]))
  }

  predicate AllDigits(s: Bytes) {
    forall i :: 0 <= i < |s| ==> IsDigit(s[i])
  }

  function FromBytes(s: Bytes): (r: seq<Digit>)
    requires AllDigits(s)
    ensures |r| == |s|
  {
    seq(|s|, i requires 0 <= i < |s| => (s[i] as int - 48) as Digit)
  }

  /** The length on a `data ` line: digits, then at most a newline. */
  function ParseLength(s: Bytes): Option<nat> {
    var d := if s != [] && Last(s) == NEWLINE then Front(s) else s;
    if d == [] || !AllDigits(d) then None else Some(Value(FromBytes(d)))
  }

  function LengthLine(n: nat): Bytes {
    DATA_PREFIX + ToBytes(Digits(n)) + [NEWLINE]
  }

  lemma LengthParses(n: nat)
    ensures AllDigits(ToBytes(Digits(n))) && ParseLength(ToBytes(Digits(n)) + [NEWLINE]) == Some(n)
  {
    var s := ToBytes(Digits(n));
    assert Front(s + [NEWLINE]) == s;
    assert FromBytes(s) == Digits(n);
    ValueOfDigits(n);
  }

  // ---------- the reader ----------

  /** The end of the first line, its newline included. */
  function LineEnd(s: Bytes): (n: nat)
    ensures n <= |s| && (s != [] ==> n > 0)
  {
    if s == [] then 0 else if s[0] == NEWLINE then 1 else 1 + LineEnd(s[1..])
  }

  function Cons(r: Record, p: Parsed): Parsed {
    if p.Records? then Records([r] + p.records) else p
  }

  /** What the first line of the rest announces. */
  datatype Header = NotData | DataOf(size: nat) | Malformed

  function HeaderOf(line: Bytes): Header {
    if !(DATA_PREFIX <= line) then NotData
    else if ParseLength(line[5..]).None? then Malformed
    else DataOf(ParseLength(line[5..]).value)
  }

  function Read(s: Bytes): Parsed
    decreases |s|
  {
    if s == [] then Records([])
    else
      var n := LineEnd(s);
      match HeaderOf(s[..n])
      case NotData => Cons(CommandLine(s[..n]), Read(s[n..]))
      case Malformed => BadLength
      case DataOf(size) =>
        if |s| < n + size then Incomplete
        else Cons(DataBlock(s[n..n + size]), Read(s[n + size..]))
  }

  /** The first record of a stream and the bytes it takes, or why there is none. */
  datatype Step = Got(record: Record, size: nat) | Stopped(why: Parsed)

  function FirstRecord(s: Bytes): Step {
    var n := LineEnd(s);
    match HeaderOf(s[..n])
    case NotData => Got(CommandLine(s[..n]), n)
    case Malformed => Stopped(BadLength)
    case DataOf(size) =>
      if |s| < n + size then Stopped(Incomplete) else Got(DataBlock(s[n..n + size]), n + size)
  }

  lemma ReadStep(s: Bytes)
    requires s != []
    ensures FirstRecord(s).Got? ==> (0 < FirstRecord(s).size <= |s|
      && Read(s) == Cons(FirstRecord(s).record, Read(s[FirstRecord(s).size..])))
    ensures FirstRecord(s).Stopped? ==> !FirstRecord(s).why.Records? && Read(s) == FirstRecord(s).why
  {
    hide HeaderOf, LineEnd;
  }

  /** What has been read, followed by what the rest of the stream gives, is the result. */
  ghost predicate Reading(s: Bytes, at: nat, rs: seq<Record>) {
    at <= |s| && Read(s) == Prepend(rs, Read(s[at..]))
  }

  lemma ReadingStep(s: Bytes, at: nat, rs: seq<Record>)
    requires at < |s| && Reading(s, at, rs)
    ensures match FirstRecord(s[at..])
      case Got(r, k) => 0 < k <= |s| - at && Reading(s, at + k, rs + [r])
      case Stopped(why) => Read(s) == why
  {
    ReadStep(s[at..]);
    hide FirstRecord, Read;
    match FirstRecord(s[at..]) {
      case Got(r, k) =>
        assert s[at..][k..] == s[at + k..];
        PrependCons(rs, r, Read(s[at + k..]));
      case Stopped(why) =>
    }
  }

  lemma ReadNothing()
    ensures Read([]) == Records([])
  {
  }

  lemma ReadingEnds(s: Bytes, rs: seq<Record>)
    requires Reading(s, |s|, rs)
    ensures Read(s) == Records(rs)
  {
    hide Read;
    ReadNothing();
    assert s[|s|..] == [];
    assert Prepend(rs, Records([])) == Records(rs);
  }

  /** One turn of the reader: a line, and the block it announces. */
  method ReadRecord(s: Bytes) returns (step: Step)
    requires s != []
    ensures step == FirstRecord(s)
  {
    hide HeaderOf, LineEnd;
    var n := LineEnd(s);
    var header := HeaderOf(s[..n]);
    if header.Malformed? {
      return Stopped(BadLength);
    }
    if header.NotData? {
      return Got(CommandLine(s[..n]), n);
    }
    if |s| < n + header.size {
      return Stopped(Incomplete);
    }
    return Got(DataBlock(s[n..n + header.size]), n + header.size);
  }

  /** The reader's loop over the stream. */
  method GitExport(s: Bytes) returns (p: Parsed)
    ensures p == Read(s)
  {
    var records: seq<Record>, at: nat := [], 0;
    assert Reading(s, 0, []) by { assert s[0..] == s; }
    hide Reading, Read, FirstRecord;
    while at < |s|
      invariant at <= |s| && Reading(s, at, records)
      decreases |s| - at
    {
      ReadingStep(s, at, records);
      var step := ReadRecord(s[at..]);
      if step.Stopped? {
        return step.why;
      }
      records, at := records + [step.record], at + step.size;
    }
    ReadingEnds(s, records);
    p := Records(records);
  }

  function Prepend(rs: seq<Record>, p: Parsed): Parsed {
    if p.Records? then Records(rs + p.records) else p
  }

  lemma PrependCons(rs: seq<Record>, r: Record, p: Parsed)
    ensures Prepend(rs, Cons(r, p)) == Prepend(rs + [r], p)
  {
    if p.Records? {
      Assoc(rs, [r], p.records);
    }
  }

  // ---------- the writer ----------

  function WriteRecord(r: Record): Bytes {
    match r
    case CommandLine(b) => b
    case DataBlock(b) => LengthLine(|b|) + b
  }

  function Write(rs: seq<Record>): Bytes {
    if rs == [] then [] else WriteRecord(rs[0]) + Write(rs[1..])
  }

  function Clean(r: Record, clean: Bytes -> Bytes): Record {
    r.(bytes := clean(r.bytes))
  }

  function CleanAll(rs: seq<Record>, clean: Bytes -> Bytes): (r: seq<Record>)
    ensures |r| == |rs|
  {
    seq(|rs|, i requires 0 <= i < |rs| => Clean(rs[i], clean))
  }

  /** The rewriting loop: cleaned lines as they are, cleaned blocks behind a fresh length. */
  method RewriteStream(rs: seq<Record>, clean: Bytes -> Bytes) returns (out: Bytes)
    ensures out == Write(CleanAll(rs, clean))
  {
    out := [];
    var i := 0;
    assert CleanAll(rs, clean)[0..] == CleanAll(rs, clean);
    while i < |rs|
      invariant i <= |rs|
      invariant out + Write(CleanAll(rs, clean)[i..]) == Write(CleanAll(rs, clean))
    {
      var cleaned := clean(rs[i].bytes);
      ghost var all := CleanAll(rs, clean);
      assert all[i..][1..] == all[i + 1..];
      Assoc(out, WriteRecord(all[i]), Write(all[i + 1..]));
      if rs[i].DataBlock? {
        Assoc(out, LengthLine(|cleaned|), cleaned);
        out := out + LengthLine(|cleaned|);
      }
      out := out + cleaned;
      i := i + 1;
    }
  }

  // ---------- when the stream stays readable ----------

  /** One line: not empty, not a `data ` line, and no newline before its last byte. */
  predicate IsCommand(b: Bytes) {
    b != [] && !(DATA_PREFIX <= b) && forall i :: 0 <= i < |b| - 1 ==> b[i] != NEWLINE
  }

  /** Every command is one line, and only the very last record may lack its newline. */
  predicate Framed(rs: seq<Record>) {
    forall i :: 0 <= i < |rs| && rs[i].CommandLine? ==>
      IsCommand(rs[i].bytes) && (i < |rs| - 1 ==> Last(rs[i].bytes) == NEWLINE)
  }

  lemma {:induction false} LineEndAt(s: Bytes, n: nat)
    requires 0 < n <= |s| && s[n - 1] == NEWLINE && forall i :: 0 <= i < n - 1 ==> s[i] != NEWLINE
    ensures LineEnd(s) == n
  {
    if n > 1 {
      assert forall i :: 0 <= i < n - 2 ==> s[1..][i] == s[i + 1];
      LineEndAt(s[1..], n - 1);
    }
  }

  lemma {:induction false} LineEndNone(s: Bytes)
    requires s != [] && forall i :: 0 <= i < |s| - 1 ==> s[i] != NEWLINE
    ensures LineEnd(s) == |s|
  {
    if |s| > 1 && s[0] != NEWLINE {
      assert forall i :: 0 <= i < |s[1..]| - 1 ==> s[1..][i] == s[i + 1];
      LineEndNone(s[1..]);
    }
  }

  lemma {:induction false} LineEndSplits(s: Bytes)
    requires s != []
    ensures forall i :: 0 <= i < LineEnd(s) - 1 ==> s[i] != NEWLINE
    ensures LineEnd(s) < |s| ==> s[LineEnd(s) - 1] == NEWLINE
  {
    if s[0] != NEWLINE && |s| > 1 {
      LineEndSplits(s[1..]);
      assert forall i :: 1 <= i < |s| ==> s[i] == s[1..][i - 1];
    }
  }

  lemma LengthLineEnds(n: nat, rest: Bytes)
    ensures LineEnd(LengthLine(n) + rest) == |LengthLine(n)|
    ensures DATA_PREFIX <= LengthLine(n) && LengthLine(n)[5..] == ToBytes(Digits(n)) + [NEWLINE]
  {
    var h := LengthLine(n);
    var s := h + rest;
    LengthParses(n);
    forall i | 0 <= i < |h| - 1
      ensures s[i] != NEWLINE
    {
      if i >= 5 {
        assert s[i] == ToBytes(Digits(n))[i - 5];
      } else {
        assert s[i] == DATA_PREFIX[i];
      }
    }
    LineEndAt(s, |h|);
  }

  /** A written block reads back exactly, whatever bytes it holds. */
  lemma BlockReads(b: Bytes, rest: Bytes)
    ensures Read(LengthLine(|b|) + b + rest) == Cons(DataBlock(b), Read(rest))
  {
    var h := LengthLine(|b|);
    var s := h + b + rest;
    Assoc(h, b, rest);
    LengthLineEnds(|b|, b + rest);
    LengthParses(|b|);
    assert s[..|h|] == h;
    assert s[|h|..|h| + |b|] == b && s[|h| + |b|..] == rest;
  }

  lemma CommandReads(b: Bytes, rest: Bytes)
    requires IsCommand(b) && (rest != [] ==> Last(b) == NEWLINE)
    ensures Read(b + rest) == Cons(CommandLine(b), Read(rest))
  {
    var s := b + rest;
    if rest == [] {
      assert s == b;
      LineEndNone(b);
    } else {
      LineEndAt(s, |b|);
    }
    assert s[..|b|] == b && s[|b|..] == rest;
  }

  lemma {:induction false} FramedReads(rs: seq<Record>)
    requires Framed(rs)
    ensures Read(Write(rs)) == Records(rs)
    decreases |rs|
  {
    if rs != [] {
      var rest := rs[1..];
      assert forall i :: 0 <= i < |rest| ==> rest[i] == rs[i + 1];
      FramedReads(rest);
      assert rs == [rs[0]] + rest;
      match rs[0] {
        case CommandLine(b) =>
          if rest == [] {
            assert Write(rest) == [];
          }
          CommandReads(b, Write(rest));
        case DataBlock(b) => BlockReads(b, Write(rest));
      }
    }
  }

  lemma FirstIsFramed(s: Bytes)
    requires s != [] && FirstRecord(s).Got? && FirstRecord(s).record.CommandLine?
    ensures FirstRecord(s).size <= |s| && IsCommand(FirstRecord(s).record.bytes)
    ensures FirstRecord(s).size < |s| ==> Last(FirstRecord(s).record.bytes) == NEWLINE
  {
    LineEndSplits(s);
  }

  /** The reader only ever returns framed records. */
  lemma {:induction false} ReadIsFramed(s: Bytes)
    requires Read(s).Records?
    ensures Framed(Read(s).records) && (s == [] ==> Read(s).records == [])
    decreases |s|
  {
    if s == [] {
      assert Framed([]);
    } else {
      ReadStep(s);
      assert s[|s|..] == [];
      if FirstRecord(s).record.CommandLine? {
        FirstIsFramed(s);
      }
      var rest := s[FirstRecord(s).size..];
      hide Read, FirstRecord, IsCommand, Framed;
      ReadIsFramed(rest);
    }
  }

  /** Reading the written stream gives back exactly the records if and only if they are framed. */
  lemma ReadInvertsWrite(rs: seq<Record>)
    ensures Read(Write(rs)) == Records(rs) <==> Framed(rs)
  {
    if Framed(rs) {
      FramedReads(rs);
    }
    if Read(Write(rs)) == Records(rs) {
      ReadIsFramed(Write(rs));
    }
  }

  /** The rewritten export reads as the cleaned records exactly when cleaning keeps every command one
      newline-ended line that is not a `data ` line; the contents of data blocks do not matter. */
  lemma RewrittenStreamReads(s: Bytes, clean: Bytes -> Bytes)
    requires Read(s).Records?
    ensures Read(Write(CleanAll(Read(s).records, clean))) == Records(CleanAll(Read(s).records, clean))
       <==> Framed(CleanAll(Read(s).records, clean))
  {
    ReadInvertsWrite(CleanAll(Read(s).records, clean));
  }

  // ---------- an unredacted stream is unchanged ----------

  /** Every length in the stream is spelled canonically. */
  predicate CanonicalLengths(s: Bytes)
    requires Read(s).Records?
    decreases |s|
  {
    if s == [] then true
    else
      var n := LineEnd(s);
      match HeaderOf(s[..n])
      case DataOf(size) => s[..n] == LengthLine(size) && CanonicalLengths(s[n + size..])
      case NotData => CanonicalLengths(s[n..])
      case Malformed => true
  }

  lemma UnchangedBlock(s: Bytes, n: nat, k: nat, rest: seq<Record>)
    requires n <= k <= |s| && s[..n] == LengthLine(k - n) && Write(rest) == s[k..]
    ensures Write([DataBlock(s[n..k])] + rest) == s
  {
    hide LengthLine;
    assert s == s[..n] + s[n..k] + s[k..];
  }

  /** Without redaction, rewriting reproduces the stream if its lengths are canonical. */
  lemma {:induction false} UncleanedIsUnchanged(s: Bytes)
    requires Read(s).Records? && CanonicalLengths(s)
    ensures Write(Read(s).records) == s
    decreases |s|
  {
    if s != [] {
      var n := LineEnd(s);
      hide HeaderOf, LineEnd, LengthLine, Write;
      match HeaderOf(s[..n]) {
        case NotData =>
          UncleanedIsUnchanged(s[n..]);
        case DataOf(size) =>
          UncleanedIsUnchanged(s[n + size..]);
          UnchangedBlock(s, n, n + size, Read(s[n + size..]).records);
      }
    } else {
      assert Write([]) == [];
    }
  }

  lemma {:induction false} WrittenIsCanonical(rs: seq<Record>)
    requires Framed(rs)
    ensures Read(Write(rs)) == Records(rs) && CanonicalLengths(Write(rs))
    decreases |rs|
  {
    FramedReads(rs);
    if rs != [] {
      var rest := rs[1..];
      assert forall i :: 0 <= i < |rest| ==> rest[i] == rs[i + 1];
      WrittenIsCanonical(rest);
      var s := Write(rs);
      match rs[0] {
        case CommandLine(b) =>
          if rest == [] {
            assert Write(rest) == [];
            assert s == b;
            LineEndNone(b);
          } else {
            LineEndAt(s, |b|);
          }
          assert s[..|b|] == b && s[|b|..] == Write(rest);
        case DataBlock(b) =>
          var h := LengthLine(|b|);
          Assoc(h, b, Write(rest));
          LengthLineEnds(|b|, b + Write(rest));
          LengthParses(|b|);
          assert s[..|h|] == h && s[|h| + |b|..] == Write(rest);
      }
    }
  }

  /** Rewriting without redaction changes nothing exactly when all lengths are canonical. */
  lemma UnchangedIffCanonical(s: Bytes)
    requires Read(s).Records?
    ensures Write(Read(s).records) == s <==> CanonicalLengths(s)
  {
    ReadIsFramed(s);
    WrittenIsCanonical(Read(s).records);
    if CanonicalLengths(s) {
      UncleanedIsUnchanged(s);
    }
  }
}
