/** The part of JSON (RFC 8259) the envelope needs: one object whose members all have
    string values. Rendering follows Python's `json.dumps` with its default
    separators (", " between members, ": " after a name); parsing follows
    `json.loads` on such an object: insignificant whitespace anywhere between
    tokens, the string escapes of section 7 of RFC 8259, no trailing comma, nothing
    but whitespace after the closing brace, and the last of several members with the
    same name wins when the members become a dict. */
module Json {
  import opened Results

  datatype Member = Member(key: string, value: string)

  datatype JsonError =
    | NotAnObject              // the document is not an object
    | ExpectingPropertyName
    | ExpectingColon
    | ExpectingComma
    | UnsupportedValue         // a member value other than a string
    | UnterminatedString
    | InvalidControlCharacter  // a raw character below U+0020 inside a string
    | InvalidEscape
    | LoneSurrogate            // a \u escape naming half of a surrogate pair alone
    | ExtraData                // something other than whitespace after the object

  /** The four whitespace characters JSON allows between tokens. */
  predicate IsWhitespace(c: char) {
    c == ' ' || c == '\t' || c == '\n' || c == '\r'
  }

  function SkipWs(s: string): (r: string)
    ensures |r| <= |s|
    ensures |r| > 0 ==> !IsWhitespace(r[0])
  {
    if |s| > 0 && IsWhitespace(s[0]) then SkipWs(s[1..]) else s
  }

  /** A character `json.dumps` writes as itself: printable ASCII other than the
      quotation mark and the backslash (everything else it escapes). */
  predicate IsPlain(c: char) {
    ' ' <= c <= '~' && c != '"' && c != '\\'
  }

  predicate IsPlainString(s: string) {
    forall i :: 0 <= i < |s| ==> IsPlain(s[i])
  }

  predicate IsPlainMember(m: Member) {
    IsPlainString(m.key) && IsPlainString(m.value)
  }

  predicate IsPlainObject(ms: seq<Member>) {
    forall i :: 0 <= i < |ms| ==> IsPlainMember(ms[i])
  }

  // ---------------------------------------------------------------- rendering

  function RenderString(s: string): string
    requires IsPlainString(s)
  {
    "\"" + s + "\""
  }

  function RenderMember(m: Member): string
    requires IsPlainMember(m)
  {
    RenderString(m.key) + ": " + RenderString(m.value)
  }

  function RenderMembers(ms: seq<Member>): string
    requires IsPlainObject(ms)
  {
    if |ms| == 0 then ""
    else if |ms| == 1 then RenderMember(ms[0])
    else RenderMember(ms[0]) + ", " + RenderMembers(ms[1..])
  }

  /** `json.dumps` of a dict whose keys and values are all plain strings. */
  function Dumps(ms: seq<Member>): (text: string)
    requires IsPlainObject(ms)
  {
    "{" + RenderMembers(ms) + "}"
  }

  // ------------------------------------------------------------------ parsing

  function HexDigit(c: char): (r: Option<int>)
    ensures r.Some? ==> 0 <= r.value < 16
  {
    if '0' <= c <= '9' then Some(c as int - '0' as int)
    else if 'a' <= c <= 'f' then Some(c as int - 'a' as int + 10)
    else if 'A' <= c <= 'F' then Some(c as int - 'A' as int + 10)
    else None
  }

  /** The value of four hex digits, `None` when any of them is not one. */
  function Hex4(h: string): (r: Option<int>)
    requires |h| == 4
    ensures r.Some? ==> 0 <= r.value < 0x10000
  {
    match (HexDigit(h[0]), HexDigit(h[1]), HexDigit(h[2]), HexDigit(h[3]))
    case (Some(a), Some(b), Some(c), Some(d)) => Some(((a * 16 + b) * 16 + c) * 16 + d)
    case _ => None
  }

  /** The rest of a `\u` escape after the `u`: one code point, or a high and a low
      surrogate escaped one after the other, which join into one character. */
  function ScanUnicode(h: string): (r: Result<(char, string), JsonError>)
    ensures r.Success? ==> |r.value.1| < |h|
  {
    if |h| < 4 then Failure(InvalidEscape)
    else match Hex4(h[..4])
      case None => Failure(InvalidEscape)
      case Some(u) =>
        if 0xD800 <= u < 0xDC00 then
          if |h| >= 10 && h[4] == '\\' && h[5] == 'u' then
            match Hex4(h[6..10])
            case Some(w) =>
              if 0xDC00 <= w < 0xE000 then
                Success(((0x10000 + (u - 0xD800) * 0x400 + (w - 0xDC00)) as char, h[10..]))
              else Failure(LoneSurrogate)
            case None => Failure(InvalidEscape)
          else Failure(LoneSurrogate)
        else if 0xDC00 <= u < 0xE000 then Failure(LoneSurrogate)
        else Success((u as char, h[4..]))
  }

  /** The rest of an escape after its backslash. */
  function ScanEscape(e: string): (r: Result<(char, string), JsonError>)
    ensures r.Success? ==> |r.value.1| < |e|
  {
    if |e| == 0 then Failure(UnterminatedString)
    else if e[0] == '"' then Success(('"', e[1..]))
    else if e[0] == '\\' then Success(('\\', e[1..]))
    else if e[0] == '/' then Success(('/', e[1..]))
    else if e[0] == 'b' then Success((8 as char, e[1..]))
    else if e[0] == 'f' then Success((12 as char, e[1..]))
    else if e[0] == 'n' then Success(('\n', e[1..]))
    else if e[0] == 'r' then Success(('\r', e[1..]))
    else if e[0] == 't' then Success(('\t', e[1..]))
    else if e[0] == 'u' then ScanUnicode(e[1..])
    else Failure(InvalidEscape)
  }

  /** The contents of a string up to its closing quotation mark (the opening one
      already consumed), with the input that follows it. */
  function ScanString(s: string): (r: Result<(string, string), JsonError>)
    ensures r.Success? ==> |r.value.1| < |s|
    decreases |s|
  {
    if |s| == 0 then Failure(UnterminatedString)
    else if s[0] == '"' then Success(("", s[1..]))
    else if s[0] == '\\' then
      var e :- ScanEscape(s[1..]);
      var t :- ScanString(e.1);
      Success(([e.0] + t.0, t.1))
    else if s[0] < ' ' then Failure(InvalidControlCharacter)
    else
      var t :- ScanString(s[1..]);
      Success(([s[0]] + t.0, t.1))
  }

  /** One `"name": "value"` member. */
  function ParseMember(s: string): (r: Result<(Member, string), JsonError>)
    ensures r.Success? ==> |r.value.1| < |s|
  {
    if |s| == 0 || s[0] != '"' then Failure(ExpectingPropertyName)
    else
      var k :- ScanString(s[1..]);
      var afterKey := SkipWs(k.1);
      if |afterKey| == 0 || afterKey[0] != ':' then Failure(ExpectingColon)
      else
        var atValue := SkipWs(afterKey[1..]);
        if |atValue| == 0 || atValue[0] != '"' then Failure(UnsupportedValue)
        else
          var v :- ScanString(atValue[1..]);
          Success((Member(k.0, v.0), v.1))
  }

  /** The members of a non-empty object and the input after its closing brace. */
  function ParseMembers(s: string): (r: Result<(seq<Member>, string), JsonError>)
    ensures r.Success? ==> |r.value.1| < |s| && |r.value.0| > 0
    decreases |s|
  {
    var m :- ParseMember(s);
    var next := SkipWs(m.1);
    if |next| == 0 then Failure(ExpectingComma)
    else if next[0] == '}' then Success(([m.0], next[1..]))
    else if next[0] != ',' then Failure(ExpectingComma)
    else
      var more :- ParseMembers(SkipWs(next[1..]));
      Success(([m.0] + more.0, more.1))
  }

  function ParseObject(s: string): (r: Result<(seq<Member>, string), JsonError>) {
    var start := SkipWs(s);
    if |start| == 0 || start[0] != '{' then Failure(NotAnObject)
    else
      var body := SkipWs(start[1..]);
      if |body| > 0 && body[0] == '}' then Success(([], body[1..]))
      else ParseMembers(body)
  }

  /** `json.loads` of a document that must be one flat object of strings; the
      members come back in document order, duplicates included. */
  function Loads(text: string): (r: Result<seq<Member>, JsonError>) {
    var obj :- ParseObject(text);
    if SkipWs(obj.1) != "" then Failure(ExtraData) else Success(obj.0)
  }

  // ------------------------------------------------------------------- lookup

  /** Some member is named `k`. */
  predicate HasKey(ms: seq<Member>, k: string) {
    exists i :: 0 <= i < |ms| && ms[i].key == k
  }

  /** `dict(pairs)[k]`: the value of the LAST member named `k`, `None` (a
      `KeyError` in Python) when there is none. */
  function Lookup(ms: seq<Member>, k: string): (r: Option<string>)
    ensures r.None? <==> !HasKey(ms, k)
    ensures r.Some? ==> exists i :: 0 <= i < |ms| && ms[i] == Member(k, r.value)
                                  && forall j :: i < j < |ms| ==> ms[j].key != k
  {
    if |ms| == 0 then None
    else if ms[|ms| - 1].key == k then Some(ms[|ms| - 1].value)
    else
      var front := ms[..|ms| - 1];
      assert forall i :: 0 <= i < |front| ==> front[i] == ms[i];
      Lookup(front, k)
  }

  /** Member `i` is the last one named `k`. */
  predicate IsLastWith(ms: seq<Member>, k: string, i: int) {
    0 <= i < |ms| && ms[i].key == k && forall j :: i < j < |ms| ==> ms[j].key != k
  }

  /** Lookup reads exactly the last member with the name. */
  lemma LookupLast(ms: seq<Member>, k: string, i: int)
    requires IsLastWith(ms, k, i)
    ensures Lookup(ms, k) == Some(ms[i].value)
  {
    var i0 :| 0 <= i0 < |ms| && ms[i0] == Member(k, Lookup(ms, k).value)
              && forall j :: i0 < j < |ms| ==> ms[j].key != k;
    assert ms[i0].key == k && ms[i].key == k;
    assert i == i0;
  }

  /** When every member named `k` has the same value, lookup finds that value,
      wherever the members stand. */
  lemma LookupUniform(ms: seq<Member>, k: string, v: string)
    requires HasKey(ms, k)
    requires forall i :: 0 <= i < |ms| && ms[i].key == k ==> ms[i].value == v
    ensures Lookup(ms, k) == Some(v)
  {
  }

  predicate DistinctKeys(ms: seq<Member>) {
    forall i, j :: 0 <= i < j < |ms| ==> ms[i].key != ms[j].key
  }

  /** With distinct names, lookup depends on the members present and not on their
      order: two member lists holding the same members agree on every name. */
  lemma LookupIgnoresOrder(a: seq<Member>, b: seq<Member>, k: string)
    requires DistinctKeys(a)
    requires multiset(a) == multiset(b)
    ensures Lookup(a, k) == Lookup(b, k)
  {
    assert forall x :: x in a <==> x in b by {
      forall x ensures x in a <==> x in b {
        assert x in a <==> x in multiset(a);
        assert x in b <==> x in multiset(b);
      }
    }
    if HasKey(a, k) {
      var i :| 0 <= i < |a| && a[i].key == k;
      var v := a[i].value;
      LookupUniform(a, k, v);
      assert a[i] in b;
      forall j | 0 <= j < |b| && b[j].key == k ensures b[j].value == v {
        assert b[j] in a;
      }
      LookupUniform(b, k, v);
    } else {
      forall j | 0 <= j < |b| ensures b[j].key != k {
        assert b[j] in a;
      }
    }
  }

  // --------------------------------------------------------------- round trip

  lemma SkipWsAtToken(s: string)
    requires |s| > 0 && !IsWhitespace(s[0])
    ensures SkipWs(s) == s
  {
  }

  lemma SkipOneSpace(s: string)
    requires |s| > 0 && !IsWhitespace(s[0])
    ensures SkipWs(" " + s) == s
  {
    assert (" " + s)[1..] == s;
  }

  /** A plain string is scanned back verbatim, stopping at its closing quote. */
  lemma {:induction false} ScanPlain(t: string, rest: string)
    requires IsPlainString(t)
    ensures ScanString(t + "\"" + rest) == Success((t, rest))
    decreases |t|
  {
    var s := t + "\"" + rest;
    if |t| == 0 {
      assert s == "\"" + rest;
      assert s[1..] == rest;
    } else {
      assert s[0] == t[0];
      assert s[1..] == t[1..] + "\"" + rest;
      ScanPlain(t[1..], rest);
      assert [t[0]] + t[1..] == t;
    }
  }

  lemma MemberRoundTrip(m: Member, tail: string)
    requires IsPlainMember(m)
    ensures ParseMember(RenderMember(m) + tail) == Success((m, tail))
  {
    var valueText := RenderString(m.value) + tail;
    var s := RenderMember(m) + tail;
    assert s[1..] == m.key + "\"" + (": " + valueText);
    ScanPlain(m.key, ": " + valueText);
    SkipWsAtToken(": " + valueText);
    assert (": " + valueText)[1..] == " " + valueText;
    SkipOneSpace(valueText);
    assert valueText[1..] == m.value + "\"" + tail;
    ScanPlain(m.value, tail);
  }

  lemma {:induction false} MembersRoundTrip(ms: seq<Member>, rest: string)
    requires IsPlainObject(ms) && |ms| > 0
    ensures ParseMembers(RenderMembers(ms) + "}" + rest) == Success((ms, rest))
    decreases |ms|
  {
    if |ms| == 1 {
      LastMemberRoundTrip(ms, rest);
    } else {
      var tailText := RenderMembers(ms[1..]) + "}" + rest;
      MembersRoundTrip(ms[1..], rest);
      NextMemberRoundTrip(ms, rest, tailText);
    }
  }

  lemma LastMemberRoundTrip(ms: seq<Member>, rest: string)
    requires IsPlainObject(ms) && |ms| == 1
    ensures ParseMembers(RenderMembers(ms) + "}" + rest) == Success((ms, rest))
  {
    assert RenderMembers(ms) + "}" + rest == RenderMember(ms[0]) + ("}" + rest);
    MemberRoundTrip(ms[0], "}" + rest);
    SkipWsAtToken("}" + rest);
    assert ("}" + rest)[1..] == rest;
    assert [ms[0]] == ms;
  }

  /** The step over one member followed by ", " and the rest of the object. */
  lemma NextMemberRoundTrip(ms: seq<Member>, rest: string, tailText: string)
    requires IsPlainObject(ms) && |ms| > 1
    requires tailText == RenderMembers(ms[1..]) + "}" + rest
    requires ParseMembers(tailText) == Success((ms[1..], rest))
    ensures ParseMembers(RenderMembers(ms) + "}" + rest) == Success((ms, rest))
  {
    var sep := ", " + tailText;
    SplitFirstMember(ms, rest);
    MemberRoundTrip(ms[0], sep);
    ParseAfterComma(RenderMember(ms[0]) + sep, ms[0], tailText);
    assert [ms[0]] + ms[1..] == ms;
  }

  /** The text of two or more members is the first member, a comma and a space,
      and the text of the others, which starts with a quote. */
  lemma SplitFirstMember(ms: seq<Member>, rest: string)
    requires IsPlainObject(ms) && |ms| > 1
    ensures RenderMembers(ms) + "}" + rest == RenderMember(ms[0]) + (", " + (RenderMembers(ms[1..]) + "}" + rest))
    ensures (RenderMembers(ms[1..]) + "}" + rest)[0] == '"'
  {
    var first, others := RenderMember(ms[0]), RenderMembers(ms[1..]);
    assert RenderMembers(ms) == first + ", " + others;
    Regroup(first, ", ", others, "}", rest);
    assert others[0] == RenderMember(ms[1])[0] == '"';
  }

  lemma Regroup(a: string, b: string, c: string, d: string, e: string)
    ensures a + b + c + d + e == a + (b + (c + d + e))
  {
  }

  /** After a member, a comma and a space lead on to the next member. */
  lemma ParseAfterComma(s: string, m: Member, tailText: string)
    requires ParseMember(s) == Success((m, ", " + tailText))
    requires |tailText| > 0 && tailText[0] == '"'
    ensures ParseMembers(s) == match ParseMembers(tailText)
                               case Success(more) => Success(([m] + more.0, more.1))
                               case Failure(e) => Failure(e)
  {
    var sep := ", " + tailText;
    SkipWsAtToken(sep);
    assert sep[1..] == " " + tailText;
    SkipOneSpace(tailText);
  }

  /** Round trip: `json.loads(json.dumps(d))` gives back the same members in the same
      order. */
  lemma LoadsDumps(ms: seq<Member>)
    requires IsPlainObject(ms)
    ensures Loads(Dumps(ms)) == Success(ms)
  {
    var text := Dumps(ms);
    SkipWsAtToken(text);
    var afterBrace := RenderMembers(ms) + "}";
    assert text[1..] == afterBrace;
    if |ms| == 0 {
      assert afterBrace == "}";
    } else {
      assert RenderMember(ms[0])[0] == '"';
      SkipWsAtToken(afterBrace);
      assert afterBrace == RenderMembers(ms) + "}" + "";
      MembersRoundTrip(ms, "");
    }
  }
}
