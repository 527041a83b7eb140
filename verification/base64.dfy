/** Standard padded base64 (section 4 of RFC 4648), as the envelope codec uses it
    through Python's `base64.b64encode` and `base64.b64decode`.

    Encoding is the RFC's: every 3 input bytes become 4 alphabet characters, and a
    final group of 1 or 2 bytes is padded with "==" or "=".

    Decoding mirrors CPython's non-strict `binascii.a2b_base64` (the call
    `b64decode(s)` makes when `validate` is left False), which is more lenient than
    the RFC: characters outside the alphabet are skipped, a completed padding
    sequence ends the input, and only a dangling partial group is an error. */
module Base64 {
  import opened Results

  datatype DecodeError =
    | NonAsciiInput        // b64decode: "string argument should contain only ASCII characters"
    | DanglingCharacter    // a2b_base64: number of data characters is 1 more than a multiple of 4
    | IncorrectPadding     // a2b_base64: a group of 2 or 3 data characters is never padded out

  /** The 64 characters of the standard alphabet. */
  predicate IsAlphabetChar(c: char) {
    ('A' <= c <= 'Z') || ('a' <= c <= 'z') || ('0' <= c <= '9') || c == '+' || c == '/'
  }

  /** The character that encodes the 6-bit value `v`. */
  function SextetChar(v: bv8): (c: char)
    requires v < 64
    ensures IsAlphabetChar(c)
  {
    if v < 26 then (v as int + 'A' as int) as char
    else if v < 52 then (v as int - 26 + 'a' as int) as char
    else if v < 62 then (v as int - 52 + '0' as int) as char
    else if v == 62 then '+'
    else '/'
  }

  /** The 6-bit value of an alphabet character, `None` for every other character. */
  function CharSextet(c: char): (r: Option<bv8>)
    ensures r.Some? <==> IsAlphabetChar(c)
    ensures r.Some? ==> r.value < 64
  {
    if 'A' <= c <= 'Z' then Some((c as int - 'A' as int) as bv8)
    else if 'a' <= c <= 'z' then Some((c as int - 'a' as int + 26) as bv8)
    else if '0' <= c <= '9' then Some((c as int - '0' as int + 52) as bv8)
    else if c == '+' then Some(62)
    else if c == '/' then Some(63)
    else None
  }

  /** The two character maps are inverse to each other on the alphabet. */
  lemma CharSextetInverse(v: bv8)
    requires v < 64
    ensures CharSextet(SextetChar(v)) == Some(v)
  {
    if v < 26 {
      UpperInverse(v);
    } else if v < 52 {
      LowerInverse(v);
    } else if v < 62 {
      DigitInverse(v);
    }
  }

  lemma UpperInverse(v: bv8)
    requires v < 26
    ensures CharSextet(SextetChar(v)) == Some(v)
  {
    var c := SextetChar(v);
    assert 'A' <= c <= 'Z' && c as int - 'A' as int == v as int;
  }

  lemma LowerInverse(v: bv8)
    requires 26 <= v < 52
    ensures CharSextet(SextetChar(v)) == Some(v)
  {
    var c := SextetChar(v);
    assert !('A' <= c <= 'Z') && 'a' <= c <= 'z' && c as int - 'a' as int + 26 == v as int;
  }

  lemma DigitInverse(v: bv8)
    requires 52 <= v < 62
    ensures CharSextet(SextetChar(v)) == Some(v)
  {
    var c := SextetChar(v);
    assert !('A' <= c <= 'Z') && !('a' <= c <= 'z') && '0' <= c <= '9' && c as int - '0' as int + 52 == v as int;
  }

  /** The four characters for one full group of three bytes. */
  function EncodeGroup(x: bv8, y: bv8, z: bv8): (s: string)
    ensures |s| == 4 && forall i :: 0 <= i < 4 ==> IsAlphabetChar(s[i])
  {
    [SextetChar(x >> 2), SextetChar(((x & 3) << 4) | (y >> 4)),
     SextetChar(((y & 15) << 2) | (z >> 6)), SextetChar(z & 63)]
  }

  /** The four characters for a final group of one byte. */
  function EncodeOne(x: bv8): (s: string)
    ensures |s| == 4 && IsAlphabetChar(s[0]) && IsAlphabetChar(s[1]) && s[2] == '=' && s[3] == '='
  {
    [SextetChar(x >> 2), SextetChar((x & 3) << 4), '=', '=']
  }

  /** The four characters for a final group of two bytes. */
  function EncodeTwo(x: bv8, y: bv8): (s: string)
    ensures |s| == 4 && IsAlphabetChar(s[0]) && IsAlphabetChar(s[1]) && IsAlphabetChar(s[2]) && s[3] == '='
  {
    [SextetChar(x >> 2), SextetChar(((x & 3) << 4) | (y >> 4)), SextetChar((y & 15) << 2), '=']
  }

  /** A character that may appear in encoder output. */
  predicate IsOutputChar(c: char) {
    IsAlphabetChar(c) || c == '='
  }

  /** `base64.b64encode(b).decode('utf-8')`: 4 characters per started group of 3
      bytes. */
  function Encode(b: Bytes): (s: string)
    ensures |s| == 4 * ((|b| + 2) / 3)
    decreases |b|
  {
    if |b| == 0 then ""
    else if |b| == 1 then EncodeOne(b[0])
    else if |b| == 2 then EncodeTwo(b[0], b[1])
    else EncodeGroup(b[0], b[1], b[2]) + Encode(b[3..])
  }

  /** The shape of the encoding of `n` bytes: every character is from the alphabet
      except the padding, which is only in the last one or two positions and is
      there exactly when `n` is not a multiple of 3 (two '=' for one leftover byte,
      one for two). */
  predicate WellShaped(s: string, n: nat) {
    && (forall i :: 0 <= i < |s| ==> IsOutputChar(s[i]))
    && (forall i :: 0 <= i < |s| - 2 ==> IsAlphabetChar(s[i]))
    && (|s| >= 2 ==> (IsAlphabetChar(s[|s| - 2]) <==> n % 3 != 1))
    && (|s| >= 1 ==> (IsAlphabetChar(s[|s| - 1]) <==> n % 3 == 0))
  }

  lemma {:induction false} EncodeShape(b: Bytes)
    ensures WellShaped(Encode(b), |b|)
    decreases |b|
  {
    if |b| > 2 {
      EncodeShape(b[3..]);
      GroupShape(EncodeGroup(b[0], b[1], b[2]), Encode(b[3..]), |b[3..]|);
    }
  }

  /** A full group in front of a well-shaped encoding keeps it well shaped. */
  lemma GroupShape(g: string, r: string, n: nat)
    requires |g| == 4 && forall i :: 0 <= i < 4 ==> IsAlphabetChar(g[i])
    requires WellShaped(r, n) && |r| % 4 == 0 && (|r| == 0 ==> n == 0)
    ensures WellShaped(g + r, n + 3)
  {
    var s := g + r;
    forall i | 0 <= i < |s|
      ensures IsOutputChar(s[i]) && (i < |s| - 2 ==> IsAlphabetChar(s[i]))
    {
      if i < 4 {
        assert s[i] == g[i];
      } else {
        assert s[i] == r[i - 4];
      }
    }
    if |r| > 0 {
      assert s[|s| - 1] == r[|r| - 1] && s[|s| - 2] == r[|r| - 2];
    }
  }

  /** The state of `a2b_base64`'s loop: position within the current quad, the bits
      carried over to the next output byte, the run of '=' seen since the last data
      character, and the bytes written so far. */
  datatype DecodeState = DecodeState(quad: int, carry: bv8, pads: nat, out: Bytes)

  predicate ValidState(st: DecodeState) {
    0 <= st.quad < 4
  }

  const Start := DecodeState(0, 0, 0, [])

  /** Consumes one data character of value `v`, emitting a byte on every data
      character but the first of each quad. */
  function Step(st: DecodeState, v: bv8): (r: DecodeState)
    requires ValidState(st) && v < 64
    ensures ValidState(r) && r.pads == 0
    ensures r.quad == (st.quad + 1) % 4
    ensures |r.out| == |st.out| + (if st.quad == 0 then 0 else 1)
  {
    if st.quad == 0 then DecodeState(1, v, 0, st.out)
    else if st.quad == 1 then DecodeState(2, v & 15, 0, st.out + [(st.carry << 2) | (v >> 4)])
    else if st.quad == 2 then DecodeState(3, v & 3, 0, st.out + [(st.carry << 4) | (v >> 2)])
    else DecodeState(0, 0, 0, st.out + [(st.carry << 6) | v])
  }

  /** End of input: only a finished quad is accepted. */
  function Finish(st: DecodeState): (r: Result<Bytes, DecodeError>)
    requires ValidState(st)
    ensures r.Success? <==> st.quad == 0
  {
    if st.quad == 0 then Success(st.out)
    else if st.quad == 1 then Failure(DanglingCharacter)
    else Failure(IncorrectPadding)
  }

  /** The loop of non-strict `a2b_base64` over the rest of the input. An '=' only
      counts once two data characters of the quad are in; when the quad plus the
      run of '=' reaches four the input ends there, whatever follows. Other
      characters outside the alphabet are skipped without touching the state. */
  function Run(s: string, st: DecodeState): (r: Result<Bytes, DecodeError>)
    requires ValidState(st)
    ensures r.Success? ==> st.out <= r.value
    decreases |s|
  {
    if |s| == 0 then Finish(st)
    else if s[0] == '=' then
      if st.quad >= 2 && st.quad + st.pads + 1 >= 4 then Success(st.out)
      else Run(s[1..], if st.quad >= 2 then st.(pads := st.pads + 1) else st)
    else match CharSextet(s[0])
      case None => Run(s[1..], st)
      case Some(v) => Run(s[1..], Step(st, v))
  }

  predicate IsAscii(s: string) {
    forall i :: 0 <= i < |s| ==> s[i] as int < 128
  }

  /** `base64.b64decode(s)` for a `str` argument: non-ASCII text is refused, and
      every four characters read yield at most three bytes. */
  function Decode(s: string): (r: Result<Bytes, DecodeError>)
    ensures !IsAscii(s) ==> r == Failure(NonAsciiInput)
    ensures r.Success? ==> IsAscii(s) && 4 * |r.value| <= 3 * |s|
  {
    if !IsAscii(s) then Failure(NonAsciiInput)
    else
      RunBound(s, Start);
      Run(s, Start)
  }

  /** Within a partial quad, the budget of three per data character read that has
      not yet gone into output, at four per byte emitted: 3 - 0, 6 - 4, 9 - 8. */
  function QuadCredit(quad: int): nat {
    if quad == 1 then 3 else if quad == 2 then 2 else if quad == 3 then 1 else 0
  }

  /** Each character read adds at most three quarters of a byte to the output. */
  lemma {:induction false} RunBound(s: string, st: DecodeState)
    requires ValidState(st)
    ensures var r := Run(s, st);
            r.Success? ==> 4 * |r.value| <= 4 * |st.out| + QuadCredit(st.quad) + 3 * |s|
    decreases |s|
  {
    if |s| > 0 {
      if s[0] == '=' {
        if !(st.quad >= 2 && st.quad + st.pads + 1 >= 4) {
          RunBound(s[1..], if st.quad >= 2 then st.(pads := st.pads + 1) else st);
        }
      } else {
        match CharSextet(s[0])
        case None => RunBound(s[1..], st);
        case Some(v) => RunBound(s[1..], Step(st, v));
      }
    }
  }

  /** One data character: the decoder steps and moves on. */
  lemma RunData(v: bv8, t: string, st: DecodeState)
    requires ValidState(st) && v < 64
    ensures Run([SextetChar(v)] + t, st) == Run(t, Step(st, v))
  {
    CharSextetInverse(v);
    assert ([SextetChar(v)] + t)[1..] == t;
  }

  /** One '=' that does not complete the padding. */
  lemma RunPad(t: string, st: DecodeState)
    requires ValidState(st) && !(st.quad >= 2 && st.quad + st.pads + 1 >= 4)
    ensures Run(['='] + t, st) == Run(t, if st.quad >= 2 then st.(pads := st.pads + 1) else st)
  {
    assert (['='] + t)[1..] == t;
  }

  /** The bit arithmetic of a full quad: four sextets of a group give back its bytes. */
  lemma StepGroup(x: bv8, y: bv8, z: bv8, st: DecodeState)
    requires ValidState(st) && st.quad == 0
    ensures Step(Step(Step(Step(st, x >> 2), ((x & 3) << 4) | (y >> 4)),
                      ((y & 15) << 2) | (z >> 6)), z & 63)
         == DecodeState(0, 0, 0, st.out + [x, y, z])
  {
    assert ((x >> 2) << 2) | ((((x & 3) << 4) | (y >> 4)) >> 4) == x;
    assert (((((x & 3) << 4) | (y >> 4)) & 15) << 4) | ((((y & 15) << 2) | (z >> 6)) >> 2) == y;
    assert (((((y & 15) << 2) | (z >> 6)) & 3) << 6) | (z & 63) == z;
    assert st.out + [x] + [y] + [z] == st.out + [x, y, z];
  }

  /** Decoding one encoded group from the start of a quad emits its three bytes and
      leaves the decoder at the start of the next quad. */
  lemma RunGroup(x: bv8, y: bv8, z: bv8, t: string, st: DecodeState)
    requires ValidState(st) && st.quad == 0
    ensures Run(EncodeGroup(x, y, z) + t, st) == Run(t, DecodeState(0, 0, 0, st.out + [x, y, z]))
  {
    var v0, v1, v2, v3 := x >> 2, ((x & 3) << 4) | (y >> 4), ((y & 15) << 2) | (z >> 6), z & 63;
    var st1 := Step(st, v0);
    var st2 := Step(st1, v1);
    var st3 := Step(st2, v2);
    assert EncodeGroup(x, y, z) + t
        == [SextetChar(v0)] + ([SextetChar(v1)] + ([SextetChar(v2)] + ([SextetChar(v3)] + t)));
    RunData(v0, [SextetChar(v1)] + ([SextetChar(v2)] + ([SextetChar(v3)] + t)), st);
    RunData(v1, [SextetChar(v2)] + ([SextetChar(v3)] + t), st1);
    RunData(v2, [SextetChar(v3)] + t, st2);
    RunData(v3, t, st3);
    StepGroup(x, y, z, st);
  }

  lemma StepOne(x: bv8, st: DecodeState)
    requires ValidState(st) && st.quad == 0
    ensures var r := Step(Step(st, x >> 2), (x & 3) << 4);
            r.quad == 2 && r.pads == 0 && r.out == st.out + [x]
  {
    assert ((x >> 2) << 2) | (((x & 3) << 4) >> 4) == x;
  }

  /** A final one-byte group ends the input with that byte appended. */
  lemma RunOne(x: bv8, t: string, st: DecodeState)
    requires ValidState(st) && st.quad == 0
    ensures Run(EncodeOne(x) + t, st) == Success(st.out + [x])
  {
    var v0, v1 := x >> 2, (x & 3) << 4;
    var st1 := Step(st, v0);
    var st2 := Step(st1, v1);
    StepOne(x, st);
    assert EncodeOne(x) + t == [SextetChar(v0)] + ([SextetChar(v1)] + (['='] + (['='] + t)));
    RunData(v0, [SextetChar(v1)] + (['='] + (['='] + t)), st);
    RunData(v1, ['='] + (['='] + t), st1);
    RunPad(['='] + t, st2);
    assert Run(['='] + t, st2.(pads := 1)) == Success(st2.out);
  }

  lemma StepTwo(x: bv8, y: bv8, st: DecodeState)
    requires ValidState(st) && st.quad == 0
    ensures var r := Step(Step(Step(st, x >> 2), ((x & 3) << 4) | (y >> 4)), (y & 15) << 2);
            r.quad == 3 && r.pads == 0 && r.out == st.out + [x, y]
  {
    assert ((x >> 2) << 2) | ((((x & 3) << 4) | (y >> 4)) >> 4) == x;
    assert (((((x & 3) << 4) | (y >> 4)) & 15) << 4) | (((y & 15) << 2) >> 2) == y;
    assert st.out + [x] + [y] == st.out + [x, y];
  }

  /** A final two-byte group ends the input with those bytes appended. */
  lemma RunTwo(x: bv8, y: bv8, t: string, st: DecodeState)
    requires ValidState(st) && st.quad == 0
    ensures Run(EncodeTwo(x, y) + t, st) == Success(st.out + [x, y])
  {
    var v0, v1, v2 := x >> 2, ((x & 3) << 4) | (y >> 4), (y & 15) << 2;
    var st1 := Step(st, v0);
    var st2 := Step(st1, v1);
    var st3 := Step(st2, v2);
    StepTwo(x, y, st);
    assert EncodeTwo(x, y) + t == [SextetChar(v0)] + ([SextetChar(v1)] + ([SextetChar(v2)] + (['='] + t)));
    RunData(v0, [SextetChar(v1)] + ([SextetChar(v2)] + (['='] + t)), st);
    RunData(v1, [SextetChar(v2)] + (['='] + t), st1);
    RunData(v2, ['='] + t, st2);
    assert Run(['='] + t, st3) == Success(st3.out);
  }

  /** Decoding the encoding of `b`, followed by anything, from the start of a quad:
      a padded encoding ends the input with exactly `b` appended; an unpadded one
      appends `b` and carries on with what follows. */
  lemma {:induction false} RunEncoded(b: Bytes, t: string, st: DecodeState)
    requires ValidState(st) && st.quad == 0 && |b| > 0
    ensures |b| % 3 != 0 ==> Run(Encode(b) + t, st) == Success(st.out + b)
    ensures |b| % 3 == 0 ==> Run(Encode(b) + t, st) == Run(t, DecodeState(0, 0, 0, st.out + b))
    decreases |b|
  {
    if |b| == 1 {
      RunOne(b[0], t, st);
      assert [b[0]] == b;
    } else if |b| == 2 {
      RunTwo(b[0], b[1], t, st);
      assert [b[0], b[1]] == b;
    } else {
      RunEncodedGroup(b, t, st);
    }
  }

  lemma {:induction false} RunEncodedGroup(b: Bytes, t: string, st: DecodeState)
    requires ValidState(st) && st.quad == 0 && |b| >= 3
    ensures |b| % 3 != 0 ==> Run(Encode(b) + t, st) == Success(st.out + b)
    ensures |b| % 3 == 0 ==> Run(Encode(b) + t, st) == Run(t, DecodeState(0, 0, 0, st.out + b))
    decreases |b|, 1
  {
    RunFirstGroup(b, t, st);
    if |b| == 3 {
      LastGroup(b, t, st);
    } else {
      RunLaterGroups(b, t, st);
    }
  }

  /** The group just decoded was the last one. */
  lemma LastGroup(b: Bytes, t: string, st: DecodeState)
    requires ValidState(st) && |b| == 3
    ensures Run(Encode(b[3..]) + t, DecodeState(0, 0, 0, st.out + [b[0], b[1], b[2]]))
         == Run(t, DecodeState(0, 0, 0, st.out + b))
  {
    assert b[3..] == [];
    assert Encode(b[3..]) + t == t;
    assert [b[0], b[1], b[2]] == b;
  }

  /** More bytes follow the group just decoded. */
  lemma {:induction false} RunLaterGroups(b: Bytes, t: string, st: DecodeState)
    requires ValidState(st) && st.quad == 0 && |b| > 3
    ensures var r := Run(Encode(b[3..]) + t, DecodeState(0, 0, 0, st.out + [b[0], b[1], b[2]]));
            && (|b| % 3 != 0 ==> r == Success(st.out + b))
            && (|b| % 3 == 0 ==> r == Run(t, DecodeState(0, 0, 0, st.out + b)))
    decreases |b|, 0
  {
    var rest := b[3..];
    var st' := DecodeState(0, 0, 0, st.out + [b[0], b[1], b[2]]);
    RunEncoded(rest, t, st');
    AppendGroup(st.out, b);
    assert st'.out + rest == st.out + b;
    SameResidue(|rest|, |b|);
  }

  lemma SameResidue(m: nat, n: nat)
    requires n == m + 3
    ensures (m % 3 == 0) == (n % 3 == 0)
  {
  }

  lemma AppendGroup(out: Bytes, b: Bytes)
    requires |b| >= 3
    ensures out + [b[0], b[1], b[2]] + b[3..] == out + b
  {
    assert b == [b[0], b[1], b[2]] + b[3..];
  }

  lemma RunFirstGroup(b: Bytes, t: string, st: DecodeState)
    requires ValidState(st) && st.quad == 0 && |b| >= 3
    ensures Run(Encode(b) + t, st)
         == Run(Encode(b[3..]) + t, DecodeState(0, 0, 0, st.out + [b[0], b[1], b[2]]))
  {
    var g := EncodeGroup(b[0], b[1], b[2]);
    assert Encode(b) == g + Encode(b[3..]);
    assert Encode(b) + t == g + (Encode(b[3..]) + t);
    RunGroup(b[0], b[1], b[2], Encode(b[3..]) + t, st);
  }

  /** Round trip: decoding an encoding gives back the bytes. */
  lemma DecodeEncode(b: Bytes)
    ensures Decode(Encode(b)) == Success(b)
  {
    var s := Encode(b);
    EncodeIsAscii(b);
    if |b| > 0 {
      RunEncoded(b, "", Start);
      assert s + "" == s;
      assert Start.out + b == b;
    }
  }

  /** Encoding is injective, so distinct byte strings never share a field value. */
  lemma EncodeInjective(a: Bytes, b: Bytes)
    requires Encode(a) == Encode(b)
    ensures a == b
  {
    DecodeEncode(a);
    DecodeEncode(b);
  }

  lemma EncodeIsAscii(b: Bytes)
    ensures IsAscii(Encode(b))
  {
    var s := Encode(b);
    EncodeShape(b);
    forall i | 0 <= i < |s| ensures s[i] as int < 128 {
      assert IsOutputChar(s[i]);
    }
  }

  /** Once a padded encoding is complete, whatever follows it is never read. */
  lemma DecodeIgnoresAfterPadding(b: Bytes, t: string)
    requires |b| % 3 != 0 && IsAscii(t)
    ensures Decode(Encode(b) + t) == Success(b)
  {
    var e := Encode(b);
    var s := e + t;
    EncodeIsAscii(b);
    assert IsAscii(s) by {
      forall i | 0 <= i < |s| ensures s[i] as int < 128 {
        if i < |e| {
          assert s[i] == e[i];
        } else {
          assert s[i] == t[i - |e|];
        }
      }
    }
    RunEncoded(b, t, Start);
    assert Start.out + b == b;
  }

  /** The input with every character that is neither in the alphabet nor '=' removed. */
  function Significant(s: string): (r: string)
    ensures |r| <= |s|
    ensures forall i :: 0 <= i < |r| ==> IsOutputChar(r[i])
  {
    if |s| == 0 then ""
    else if IsOutputChar(s[0]) then [s[0]] + Significant(s[1..])
    else Significant(s[1..])
  }

  /** Characters outside the alphabet (line breaks, spaces, '-', '_' and the like)
      do not change the decoder's result. */
  lemma {:induction false} RunSkipsInsignificant(s: string, st: DecodeState)
    requires ValidState(st)
    ensures Run(s, st) == Run(Significant(s), st)
    decreases |s|
  {
    if |s| > 0 {
      var r := Significant(s);
      if IsOutputChar(s[0]) {
        assert r[0] == s[0] && r[1..] == Significant(s[1..]);
        if s[0] == '=' {
          if !(st.quad >= 2 && st.quad + st.pads + 1 >= 4) {
            RunSkipsInsignificant(s[1..], if st.quad >= 2 then st.(pads := st.pads + 1) else st);
          }
        } else {
          RunSkipsInsignificant(s[1..], Step(st, CharSextet(s[0]).value));
        }
      } else {
        RunSkipsInsignificant(s[1..], st);
      }
    }
  }

  lemma DecodeSkipsInsignificant(s: string)
    requires IsAscii(s)
    ensures Decode(s) == Decode(Significant(s))
  {
    RunSkipsInsignificant(s, Start);
    SignificantIsAscii(s);
  }

  lemma {:induction false} SignificantIsAscii(s: string)
    ensures IsAscii(Significant(s))
    decreases |s|
  {
    if |s| > 0 {
      SignificantIsAscii(s[1..]);
    }
  }
}
