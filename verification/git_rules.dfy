/** The Git stream in plain terms: the bytes that announce a block, which lengths are read, when a
    stream is faulty, and what rewriting does to a record. */
module GitRules {
  import opened Text
  import opened GitStream

  const SPELLED: string := "data \n"

  /** The bytes of `data ` and of the newline. */
  lemma BytesSpell()
    ensures |DATA_PREFIX| == 5 && forall i :: 0 <= i < 5 ==> DATA_PREFIX[i] as int == SPELLED[i] as int
    ensures NEWLINE as int == SPELLED[5] as int
  {
  }

  /** The number the digits spell, most significant first. */
  function Spelled(s: Bytes): int {
    if s == [] then 0 else 10 * Spelled(Front(s)) + (Last(s) as int - '0' as int)
  }

  ghost predicate Numeral(s: Bytes) {
    s != [] && forall i :: 0 <= i < |s| ==> '0' as int <= s[i] as int <= '9' as int
  }

  lemma {:induction false} ValueIsSpelled(s: Bytes)
    requires AllDigits(s)
    ensures Value(FromBytes(s)) == Spelled(s)
  {
    if s != [] {
      ValueIsSpelled(Front(s));
      assert Front(FromBytes(s)) == FromBytes(Front(s));
    }
  }

  /** A length is a decimal numeral, followed by at most the newline. */
  lemma LengthIff(s: Bytes, n: nat)
    ensures ParseLength(s) == Some(n) <==>
      exists d :: Numeral(d) && Spelled(d) == n && (s == d || s == d + [NEWLINE])
  {
    var d := if s != [] && Last(s) == NEWLINE then Front(s) else s;
    assert s == d || s == d + [NEWLINE];
    assert AllDigits(d) && d != [] <==> Numeral(d);
    if AllDigits(d) {
      ValueIsSpelled(d);
    }
    forall e | Numeral(e) && (s == e || s == e + [NEWLINE])
      ensures e == d
    {
      assert Last(e) != NEWLINE;
      assert s == e + [NEWLINE] ==> Front(s) == e && Last(s) == NEWLINE;
    }
    hide AllDigits, Numeral, Spelled;
  }

  // ---------- faulty streams ----------

  /** `t` is what is left of the stream after `n` records. */
  ghost predicate LeftAfter(s: Bytes, n: nat, t: Bytes) {
    if n == 0 then t == s
    else s != [] && FirstRecord(s).Got? && FirstRecord(s).size <= |s| && LeftAfter(s[FirstRecord(s).size..], n - 1, t)
  }

  /** A `data ` line without a proper length. */
  ghost predicate Unmeasured(t: Bytes) {
    && t != [] && DATA_PREFIX <= t[..LineEnd(t)]
    && forall n: nat :: ParseLength(t[..LineEnd(t)][5..]) != Some(n)
  }

  /** A `data ` line with a length that the rest of the stream falls short of. */
  ghost predicate Short(t: Bytes) {
    && t != [] && DATA_PREFIX <= t[..LineEnd(t)]
    && exists n: nat :: ParseLength(t[..LineEnd(t)][5..]) == Some(n) && |t| < LineEnd(t) + n
  }

  lemma FirstFaults(s: Bytes)
    requires s != []
    ensures FirstRecord(s) == Stopped(BadLength) <==> Unmeasured(s)
    ensures FirstRecord(s) == Stopped(Incomplete) <==> Short(s)
    ensures FirstRecord(s).Stopped? ==> FirstRecord(s).why in [BadLength, Incomplete]
  {
    if DATA_PREFIX <= s[..LineEnd(s)] {
      var length := ParseLength(s[..LineEnd(s)][5..]);
      assert length.Some? <==> exists n: nat :: length == Some(n);
    }
  }

  lemma {:induction false} FaultsOnTheWay(s: Bytes, n: nat, t: Bytes)
    requires LeftAfter(s, n, t)
    ensures Unmeasured(t) ==> Read(s) == BadLength
    ensures Short(t) ==> Read(s) == Incomplete
    decreases n
  {
    if s != [] {
      ReadStep(s);
      hide FirstRecord, Read, Unmeasured, Short;
      if n == 0 {
        FirstFaults(s);
      } else {
        FaultsOnTheWay(s[FirstRecord(s).size..], n - 1, t);
      }
    }
  }

  lemma {:induction false} FaultIsMet(s: Bytes) returns (n: nat, t: Bytes)
    requires !Read(s).Records?
    ensures LeftAfter(s, n, t) && (Unmeasured(t) || Short(t))
    decreases |s|
  {
    ReadStep(s);
    FirstFaults(s);
    hide Read, FirstRecord, Unmeasured, Short;
    if FirstRecord(s).Got? {
      n, t := FaultIsMet(s[FirstRecord(s).size..]);
      n := n + 1;
    } else {
      n, t := 0, s;
    }
  }

  /** Reading fails for a bad length exactly if, after some records, a `data ` line has none, and as incomplete
      exactly if the stream ends within a block. */
  lemma FaultIff(s: Bytes)
    ensures Read(s) == BadLength <==> exists n: nat, t :: LeftAfter(s, n, t) && Unmeasured(t)
    ensures Read(s) == Incomplete <==> exists n: nat, t :: LeftAfter(s, n, t) && Short(t)
  {
    if !Read(s).Records? {
      var n, t := FaultIsMet(s);
      FaultsOnTheWay(s, n, t);
    }
    forall n: nat, t | LeftAfter(s, n, t)
      ensures Unmeasured(t) ==> Read(s) == BadLength
      ensures Short(t) ==> Read(s) == Incomplete
    {
      FaultsOnTheWay(s, n, t);
    }
    hide Read, LeftAfter, Unmeasured, Short;
  }

  // ---------- rewriting ----------

  /** Every record keeps its kind, and its bytes are the cleaned ones. */
  lemma CleanedIs(rs: seq<Record>, clean: Bytes -> Bytes, i: nat)
    requires i < |rs|
    ensures var r := CleanAll(rs, clean)[i];
      r.bytes == clean(rs[i].bytes) && (r.DataBlock? <==> rs[i].DataBlock?)
  {
  }
}
