/** The envelope record of task_4/fcrypt.py and its JSON text form.

    A `Message` holds four byte strings. Despite its name, `sessionKey` carries the
    RSA-wrapped session key, never the key itself. `ToJson` writes each field as
    padded base64 into an object with the four names in a fixed order; `FromJson`
    reads the object back, finds each field by name and decodes it. */
module Envelope {
  import opened Results
  import Base64
  import Json

  datatype Message = Message(ciphertext: Bytes, tag: Bytes, nonce: Bytes, sessionKey: Bytes)

  datatype Field = Ciphertext | Tag | Nonce | SessionKey

  /** Every error of `from_json` ends the decrypt run before any key is touched. */
  datatype EnvelopeError =
    | MalformedJson(json: Json.JsonError)             // json.loads raises
    | MissingField(field: Field)                      // data[...] raises KeyError
    | BadBase64(field: Field, cause: Base64.DecodeError)  // b64decode raises

  /** The member name under which each field is stored. */
  function Name(f: Field): (name: string)
    ensures Json.IsPlainString(name)
  {
    match f
    case Ciphertext => "ciphertext"
    case Tag => "tag"
    case Nonce => "nonce"
    case SessionKey => "sessionKey"
  }

  lemma NamesDistinct(f: Field, g: Field)
    ensures Name(f) == Name(g) <==> f == g
  {
  }

  function Get(m: Message, f: Field): Bytes {
    match f
    case Ciphertext => m.ciphertext
    case Tag => m.tag
    case Nonce => m.nonce
    case SessionKey => m.sessionKey
  }

  /** Base64 never needs escaping, so every member renders verbatim. */
  lemma Base64IsPlain(b: Bytes)
    ensures Json.IsPlainString(Base64.Encode(b))
  {
    var s := Base64.Encode(b);
    Base64.EncodeShape(b);
    forall i | 0 <= i < |s| ensures Json.IsPlain(s[i]) {
      assert Base64.IsOutputChar(s[i]);
    }
  }

  function EncodedMember(m: Message, f: Field): (member: Json.Member)
    ensures member.key == Name(f)
    ensures Json.IsPlainMember(member)
    ensures Base64.Decode(member.value) == Success(Get(m, f))
  {
    Base64IsPlain(Get(m, f));
    Base64.DecodeEncode(Get(m, f));
    Json.Member(Name(f), Base64.Encode(Get(m, f)))
  }

  /** The dict `to_json` hands to `json.dumps`, in insertion order. */
  function Members(m: Message): (ms: seq<Json.Member>)
    ensures Json.IsPlainObject(ms)
  {
    [EncodedMember(m, Ciphertext), EncodedMember(m, Tag),
     EncodedMember(m, Nonce), EncodedMember(m, SessionKey)]
  }

  /** `Message.to_json`. The text is one JSON object of exactly four members, named
      ciphertext, tag, nonce and sessionKey in that order, each holding the
      base64 of its field, and it is printable ASCII throughout, so the UTF-8 bytes
      the encrypt step writes are the characters themselves. */
  function ToJson(m: Message): (text: string)
    ensures Json.Loads(text) == Success(Members(m))
    ensures forall i :: 0 <= i < |text| ==> ' ' <= text[i] <= '~'
  {
    var ms := Members(m);
    Json.LoadsDumps(ms);
    PrintableDumps(ms);
    Json.Dumps(ms)
  }

  lemma PrintableDumps(ms: seq<Json.Member>)
    requires Json.IsPlainObject(ms)
    ensures forall i :: 0 <= i < |Json.Dumps(ms)| ==> ' ' <= Json.Dumps(ms)[i] <= '~'
  {
    PrintableMembers(ms);
  }

  lemma {:induction false} PrintableMembers(ms: seq<Json.Member>)
    requires Json.IsPlainObject(ms)
    ensures forall i :: 0 <= i < |Json.RenderMembers(ms)| ==> ' ' <= Json.RenderMembers(ms)[i] <= '~'
    decreases |ms|
  {
    if |ms| > 0 {
      var m := ms[0];
      var r := Json.RenderMember(m);
      assert forall i :: 0 <= i < |r| ==> ' ' <= r[i] <= '~' by {
        forall i | 0 <= i < |r| ensures ' ' <= r[i] <= '~' {
          var k := Json.RenderString(m.key);
          var v := Json.RenderString(m.value);
          assert r == k + ": " + v;
          if i < |k| {
            assert i == 0 || i == |k| - 1 || r[i] == m.key[i - 1];
          } else if i >= |k| + 2 {
            var j := i - |k| - 2;
            assert r[i] == v[j];
            assert j == 0 || j == |v| - 1 || v[j] == m.value[j - 1];
          }
        }
      }
      if |ms| > 1 {
        PrintableMembers(ms[1..]);
      }
    }
  }

  /** `data[name]` followed by `base64.b64decode`. */
  function ReadField(ms: seq<Json.Member>, f: Field): (r: Result<Bytes, EnvelopeError>)
  {
    match Json.Lookup(ms, Name(f))
    case None => Failure(MissingField(f))
    case Some(text) =>
      match Base64.Decode(text)
      case Success(b) => Success(b)
      case Failure(e) => Failure(BadBase64(f, e))
  }

  /** Reading a field in terms of the members themselves: no member of that name is
      a missing-field error, and otherwise the last member of that name alone
      decides, its value decoded or its decoding error reported. */
  lemma ReadFieldSpec(ms: seq<Json.Member>, f: Field, i: int)
    ensures !Json.HasKey(ms, Name(f)) ==> ReadField(ms, f) == Failure(MissingField(f))
    ensures Json.IsLastWith(ms, Name(f), i) ==>
              (ReadField(ms, f).Success? <==> Base64.Decode(ms[i].value).Success?)
    ensures Json.IsLastWith(ms, Name(f), i) && ReadField(ms, f).Success? ==>
              Base64.Decode(ms[i].value) == Success(ReadField(ms, f).value)
    ensures Json.IsLastWith(ms, Name(f), i) && Base64.Decode(ms[i].value).Failure? ==>
              ReadField(ms, f) == Failure(BadBase64(f, Base64.Decode(ms[i].value).error))
  {
    if Json.IsLastWith(ms, Name(f), i) {
      Json.LookupLast(ms, Name(f), i);
    }
  }

  /** `Message.from_json`. */
  function FromJson(text: string): (r: Result<Message, EnvelopeError>)
    ensures Json.Loads(text).Failure? ==> r == Failure(MalformedJson(Json.Loads(text).error))
    ensures r.Success? ==>
      && Json.Loads(text).Success?
      && Holds(Json.Loads(text).value, Ciphertext, r.value)
      && Holds(Json.Loads(text).value, Tag, r.value)
      && Holds(Json.Loads(text).value, Nonce, r.value)
      && Holds(Json.Loads(text).value, SessionKey, r.value)
  {
    match Json.Loads(text)
    case Failure(e) => Failure(MalformedJson(e))
    case Success(ms) =>
      var r := FromMembers(ms);
      if r.Success? then FromMembersSpec(ms, r.value); r else r
  }

  /** The constructor call of `from_json`: the fields are read in the order it lists
      them, so the first failing field decides the error. */
  function FromMembers(ms: seq<Json.Member>): (r: Result<Message, EnvelopeError>) {
    var ciphertext :- ReadField(ms, Ciphertext);
    var tag :- ReadField(ms, Tag);
    var nonce :- ReadField(ms, Nonce);
    var sessionKey :- ReadField(ms, SessionKey);
    Success(Message(ciphertext, tag, nonce, sessionKey))
  }

  /** What reading a field back from a parsed object yields for message `m`. */
  predicate Holds(ms: seq<Json.Member>, f: Field, m: Message) {
    ReadField(ms, f) == Success(Get(m, f))
  }

  lemma FromMembersSpec(ms: seq<Json.Member>, m: Message)
    ensures FromMembers(ms) == Success(m) <==>
      Holds(ms, Ciphertext, m) && Holds(ms, Tag, m) && Holds(ms, Nonce, m) && Holds(ms, SessionKey, m)
  {
    var c, t, n, k := ReadField(ms, Ciphertext), ReadField(ms, Tag), ReadField(ms, Nonce), ReadField(ms, SessionKey);
    FromMembersCases(ms);
    if c.Success? && t.Success? && n.Success? && k.Success? {
      assert Message(c.value, t.value, n.value, k.value) == m <==>
        c.value == m.ciphertext && t.value == m.tag && n.value == m.nonce && k.value == m.sessionKey;
    }
  }

  lemma FromMembersCases(ms: seq<Json.Member>)
    ensures var c, t, n, k := ReadField(ms, Ciphertext), ReadField(ms, Tag), ReadField(ms, Nonce), ReadField(ms, SessionKey);
            if c.Success? && t.Success? && n.Success? && k.Success?
            then FromMembers(ms) == Success(Message(c.value, t.value, n.value, k.value))
            else FromMembers(ms).Failure?
  {
  }

  /** `from_json` succeeds with `m` exactly when the text is an object in which the
      last member of each of the four names is present and decodes to the matching
      field of `m`. */
  lemma FromJsonSpec(text: string, m: Message)
    ensures FromJson(text) == Success(m) <==>
      && Json.Loads(text).Success?
      && Holds(Json.Loads(text).value, Ciphertext, m)
      && Holds(Json.Loads(text).value, Tag, m)
      && Holds(Json.Loads(text).value, Nonce, m)
      && Holds(Json.Loads(text).value, SessionKey, m)
  {
    if Json.Loads(text).Success? {
      FromMembersSpec(Json.Loads(text).value, m);
    }
  }

  /** A field missing from an otherwise well-formed object is an error, never a
      default value. */
  lemma MissingFieldFails(text: string, f: Field)
    requires Json.Loads(text).Success?
    requires !Json.HasKey(Json.Loads(text).value, Name(f))
    ensures FromJson(text).Failure?
  {
    var ms := Json.Loads(text).value;
    assert Json.Lookup(ms, Name(f)).None?;
  }

  /** Round trip: reading back the text of a message gives the same message. */
  lemma FromJsonToJson(m: Message)
    ensures FromJson(ToJson(m)) == Success(m)
  {
    var ms := Members(m);
    LookupMember(m, Ciphertext);
    LookupMember(m, Tag);
    LookupMember(m, Nonce);
    LookupMember(m, SessionKey);
    FromJsonSpec(ToJson(m), m);
  }

  lemma LookupMember(m: Message, f: Field)
    ensures Holds(Members(m), f, m)
  {
    var ms := Members(m);
    var i := FieldIndex(f);
    assert ms[i] == EncodedMember(m, f);
    forall j | 0 <= j < |ms| && ms[j].key == Name(f) ensures ms[j].value == ms[i].value {
      var g := FieldAt(j);
      assert ms[j] == EncodedMember(m, g);
      NamesDistinct(f, g);
    }
    Json.LookupUniform(ms, Name(f), ms[i].value);
  }

  function FieldIndex(f: Field): (i: int)
    ensures 0 <= i < 4 && FieldAt(i) == f
  {
    match f case Ciphertext => 0 case Tag => 1 case Nonce => 2 case SessionKey => 3
  }

  /** Fields are found by name, not by position: the four members written in any
      order read back as the same message. */
  lemma FromJsonAnyOrder(m: Message, ms: seq<Json.Member>)
    requires multiset(ms) == multiset(Members(m))
    ensures Json.IsPlainObject(ms)
    ensures FromJson(Json.Dumps(ms)) == Success(m)
  {
    forall i | 0 <= i < |ms| ensures Json.IsPlainMember(ms[i]) {
      assert ms[i] in multiset(Members(m));
    }
    Json.LoadsDumps(ms);
    ForEachField(m, ms);
    FromJsonSpec(Json.Dumps(ms), m);
  }

  lemma ForEachField(m: Message, ms: seq<Json.Member>)
    requires multiset(ms) == multiset(Members(m))
    ensures Holds(ms, Ciphertext, m) && Holds(ms, Tag, m) && Holds(ms, Nonce, m) && Holds(ms, SessionKey, m)
  {
    MembersDistinct(m);
    FieldAnyOrder(m, ms, Ciphertext);
    FieldAnyOrder(m, ms, Tag);
    FieldAnyOrder(m, ms, Nonce);
    FieldAnyOrder(m, ms, SessionKey);
  }

  lemma FieldAnyOrder(m: Message, ms: seq<Json.Member>, f: Field)
    requires Json.DistinctKeys(Members(m))
    requires multiset(ms) == multiset(Members(m))
    ensures Holds(ms, f, m)
  {
    LookupMember(m, f);
    Json.LookupIgnoresOrder(Members(m), ms, Name(f));
  }

  lemma MembersDistinct(m: Message)
    ensures Json.DistinctKeys(Members(m))
  {
    var ms := Members(m);
    forall i, j | 0 <= i < j < |ms| ensures ms[i].key != ms[j].key {
      var f := FieldAt(i);
      var g := FieldAt(j);
      assert ms[i].key == Name(f) && ms[j].key == Name(g);
      NamesDistinct(f, g);
    }
  }

  /** The field stored at position `i` of `Members`. */
  function FieldAt(i: int): (f: Field)
    requires 0 <= i < 4
  {
    match i case 0 => Ciphertext case 1 => Tag case 2 => Nonce case _ => SessionKey
  }

  /** Two objects with the same members under distinct names read back alike. */
  lemma FromJsonMemberOrder(text1: string, text2: string)
    requires Json.Loads(text1).Success? && Json.Loads(text2).Success?
    requires Json.DistinctKeys(Json.Loads(text1).value)
    requires multiset(Json.Loads(text1).value) == multiset(Json.Loads(text2).value)
    ensures FromJson(text1) == FromJson(text2)
  {
    var a, b := Json.Loads(text1).value, Json.Loads(text2).value;
    forall f: Field ensures ReadField(a, f) == ReadField(b, f) {
      Json.LookupIgnoresOrder(a, b, Name(f));
    }
    SameFieldsSameMessage(a, b);
  }

  lemma SameFieldsSameMessage(a: seq<Json.Member>, b: seq<Json.Member>)
    requires forall f: Field :: ReadField(a, f) == ReadField(b, f)
    ensures FromMembers(a) == FromMembers(b)
  {
    var c, t, n, k := ReadField(a, Ciphertext), ReadField(a, Tag), ReadField(a, Nonce), ReadField(a, SessionKey);
    assert c == ReadField(b, Ciphertext) && t == ReadField(b, Tag);
    assert n == ReadField(b, Nonce) && k == ReadField(b, SessionKey);
  }

  /** True when `k` is none of the four field names. */
  predicate IsUnknownName(k: string) {
    forall f: Field :: Name(f) != k
  }

  /** Members under other names are ignored rather than rejected. */
  lemma FromJsonIgnoresUnknownMembers(m: Message, extra: seq<Json.Member>)
    requires Json.IsPlainObject(extra)
    requires forall i :: 0 <= i < |extra| ==> IsUnknownName(extra[i].key)
    ensures Json.IsPlainObject(Members(m) + extra)
    ensures FromJson(Json.Dumps(Members(m) + extra)) == Success(m)
  {
    var ms := Members(m) + extra;
    assert Json.IsPlainObject(ms) by {
      forall i | 0 <= i < |ms| ensures Json.IsPlainMember(ms[i]) {
        if i >= 4 {
          assert ms[i] == extra[i - 4];
        }
      }
    }
    Json.LoadsDumps(ms);
    FieldBesideUnknown(m, extra, Ciphertext);
    FieldBesideUnknown(m, extra, Tag);
    FieldBesideUnknown(m, extra, Nonce);
    FieldBesideUnknown(m, extra, SessionKey);
    FromJsonSpec(Json.Dumps(ms), m);
  }

  lemma FieldBesideUnknown(m: Message, extra: seq<Json.Member>, f: Field)
    requires forall i :: 0 <= i < |extra| ==> IsUnknownName(extra[i].key)
    ensures Holds(Members(m) + extra, f, m)
  {
    var ms := Members(m) + extra;
    var i := FieldIndex(f);
    var v := Members(m)[i].value;
    assert ms[i] == Members(m)[i] == EncodedMember(m, f);
    forall j | 0 <= j < |ms| && ms[j].key == Name(f) ensures ms[j].value == v {
      if j < 4 {
        var g := FieldAt(j);
        assert ms[j] == EncodedMember(m, g);
        NamesDistinct(f, g);
      }
    }
    Json.LookupUniform(ms, Name(f), v);
  }

  /** When a name is repeated, the last member wins, as in a Python dict built
      from the pairs: appending a second tag member replaces the tag. */
  lemma FromJsonLastMemberWins(m: Message, tag: Bytes)
    ensures Json.IsPlainObject(Members(m) + [EncodedMember(m.(tag := tag), Tag)])
    ensures FromJson(Json.Dumps(Members(m) + [EncodedMember(m.(tag := tag), Tag)]))
         == Success(m.(tag := tag))
  {
    var m' := m.(tag := tag);
    var ms := Members(m) + [EncodedMember(m', Tag)];
    assert Json.IsPlainObject(ms) by {
      forall i | 0 <= i < |ms| ensures Json.IsPlainMember(ms[i]) {
        if i < 4 {
          assert ms[i] == Members(m)[i];
        }
      }
    }
    Json.LoadsDumps(ms);
    assert Json.Lookup(ms, Name(Tag)) == Some(Base64.Encode(tag));
    assert Holds(ms, Tag, m');
    FieldBeforeTag(m, tag, Ciphertext);
    FieldBeforeTag(m, tag, Nonce);
    FieldBeforeTag(m, tag, SessionKey);
    FromJsonSpec(Json.Dumps(ms), m');
  }

  /** A field other than the tag is still read from the original members. */
  lemma FieldBeforeTag(m: Message, tag: Bytes, f: Field)
    requires f != Tag
    ensures Holds(Members(m) + [EncodedMember(m.(tag := tag), Tag)], f, m.(tag := tag))
  {
    var ms := Members(m) + [EncodedMember(m.(tag := tag), Tag)];
    NamesDistinct(f, Tag);
    assert ms[..4] == Members(m);
    assert Json.Lookup(ms, Name(f)) == Json.Lookup(Members(m), Name(f));
    LookupMember(m, f);
  }
}
