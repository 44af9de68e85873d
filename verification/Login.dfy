/**
 `AuthenticateAsync`: the message that logs a user in, and what the server reads in it.
 */
module Login {
  import opened Words
  import opened HtsMessage
  import opened Encoding
  import opened Decoding
  import opened RoundTrip
  import opened Parser
  import opened MsgQueue
  import Sha1Spec
  import Sha1

  function ToByte(o: Sha1Spec.Octet): byte {
    o as int
  }

  function ToOctet(b: byte): Sha1Spec.Octet {
    b as Sha1Spec.Octet
  }

  /** The octets of the hash as message bytes, and back. */
  function ToBytes(d: seq<Sha1Spec.Octet>): (b: Bytes)
    ensures |b| == |d|
  {
    seq(|d|, i requires 0 <= i < |d| => ToByte(d[i]))
  }

  function ToOctets(b: Bytes): (d: seq<Sha1Spec.Octet>)
    ensures |d| == |b|
  {
    seq(|b|, i requires 0 <= i < |b| => ToOctet(b[i]))
  }

  /** Neither call of `hts_sha1_update` wraps an index. */
  predicate Hashable(password: Bytes, challenge: Bytes) {
    |password| < TWO_32 && |password| % 64 + |challenge| < TWO_32
  }

  /** An octet and a byte that are the same number. */
  predicate SameByte(o: Sha1Spec.Octet, b: byte) {
    o as int == b
  }

  ghost predicate Spells(o: seq<Sha1Spec.Octet>, b: Bytes) {
    |o| == |b| && forall i :: 0 <= i < |o| ==> SameByte(o[i], b[i])
  }

  /** The bytes d are the SHA-1 digest of the bytes m. */
  ghost predicate IsDigest(d: Bytes, m: Bytes) {
    |m| < 0x2000_0000_0000_0000 && exists o :: |o| == |m| && Spells(o, m) && Spells(Sha1Spec.Sha1(o), d)
  }

  lemma {:induction false} OctetFor(b: byte) returns (o: Sha1Spec.Octet)
    ensures SameByte(o, b)
  {
    if b == 0 {
      o := 0;
    } else {
      o := OctetFor(b - 1);
      o := o + 1;
    }
  }

  lemma AsByte(o: Sha1Spec.Octet)
    ensures SameByte(o, ToByte(o)) && ToOctet(ToByte(o)) == o
  {
  }

  lemma AsOctet(b: byte)
    ensures SameByte(ToOctet(b), b)
  {
    hide ToOctet;
    var o := OctetFor(b);
    AsByte(o);
    assert ToByte(o) == b;
  }

  lemma OneOctet(o: Sha1Spec.Octet, p: Sha1Spec.Octet, b: byte)
    requires SameByte(o, b) && SameByte(p, b)
    ensures o == p
  {
    hide ToOctet;
    AsByte(o);
    AsByte(p);
    assert ToByte(o) == ToByte(p) == b;
  }

  lemma SpellsBoth(b: Bytes, d: seq<Sha1Spec.Octet>)
    ensures Spells(ToOctets(b), b) && Spells(d, ToBytes(d))
  {
    hide ToOctet, ToByte, SameByte;
    forall i | 0 <= i < |b| ensures SameByte(ToOctets(b)[i], b[i]) {
      AsOctet(b[i]);
    }
    forall i | 0 <= i < |d| ensures SameByte(d[i], ToBytes(d)[i]) {
      AsByte(d[i]);
    }
  }

  lemma SpellsOnce(o: seq<Sha1Spec.Octet>, p: seq<Sha1Spec.Octet>, b: Bytes)
    requires Spells(o, b) && Spells(p, b)
    ensures o == p
  {
    hide SameByte;
    forall i | 0 <= i < |o| ensures o[i] == p[i] {
      OneOctet(o[i], p[i], b[i]);
    }
  }

  lemma SpelledOnce(o: seq<Sha1Spec.Octet>, b: Bytes, c: Bytes)
    requires Spells(o, b) && Spells(o, c)
    ensures b == c
  {
    assert forall i :: 0 <= i < |b| ==> SameByte(o[i], b[i]) && SameByte(o[i], c[i]);
  }

  lemma SpellsLength(o: seq<Sha1Spec.Octet>, b: Bytes)
    requires Spells(o, b)
    ensures |b| == |o|
  {
  }

  /** There is one digest of a message, and it has 20 bytes. */
  lemma OneDigest(d: Bytes, e: Bytes, m: Bytes)
    requires IsDigest(d, m)
    ensures |d| == 20 && (IsDigest(e, m) <==> e == d)
  {
    hide Sha1Spec.Sha1, Spells;
    var o :| |o| < 0x2000_0000_0000_0000 && Spells(o, m) && Spells(Sha1Spec.Sha1(o), d);
    SpellsLength(Sha1Spec.Sha1(o), d);
    if IsDigest(e, m) {
      var p :| |p| < 0x2000_0000_0000_0000 && Spells(p, m) && Spells(Sha1Spec.Sha1(p), e);
      SpellsOnce(o, p, m);
      SpelledOnce(Sha1Spec.Sha1(o), d, e);
    }
  }

  lemma LoginDigestSpells(password: Bytes, challenge: Bytes)
    requires Hashable(password, challenge)
    ensures IsDigest(ToBytes(Sha1Spec.Sha1(ToOctets(password) + ToOctets(challenge))), password + challenge)
  {
    hide Sha1Spec.Sha1, ToOctets, ToBytes, SameByte;
    var o := ToOctets(password) + ToOctets(challenge);
    SpellsBoth([], Sha1Spec.Sha1(o));
    SpellsBoth(password, []);
    SpellsBoth(challenge, []);
    assert Spells(o, password + challenge);
  }

  lemma LoginNamesDiffer()
    ensures METHOD != Ascii("username") && METHOD != Ascii("digest") && Ascii("username") != Ascii("digest")
  {
    assert METHOD[0] == 109 && Ascii("username")[0] == 117 && Ascii("digest")[0] == 100;
  }

  /** The map that is sent; without a password or a challenge it has no digest. */
  method AuthenticateMap(username: Bytes, password: Bytes, challenge: Option<Bytes>) returns (m: HtsMap)
    requires challenge.Some? ==> Hashable(password, challenge.value)
    ensures fresh(m)
    ensures m.data.Keys == {METHOD, Ascii("username")}
                         + if password != [] && challenge.Some? then {Ascii("digest")} else {}
    ensures m.data[METHOD] == Str(Ascii("authenticate")) && m.data[Ascii("username")] == Str(username)
    ensures password != [] && challenge.Some? ==>
              m.data[Ascii("digest")].Bin? && IsDigest(m.data[Ascii("digest")].bin, password + challenge.value)
  {
    hide Sha1Spec.Sha1, Ascii, IsDigest;
    LoginNamesDiffer();
    m := new HtsMap();
    m.SetData(METHOD, Str(Ascii("authenticate")));
    m.SetData(Ascii("username"), Str(username));
    if password != [] && challenge.Some? {
      var e := Sha1.LoginDigest(ToOctets(password), ToOctets(challenge.value));
      LoginDigestSpells(password, challenge.value);
      m.SetData(Ascii("digest"), Bin(ToBytes(e)));
    }
  }

  /**
   Whatever order the map is serialised in, and whatever number `ReadResult` adds to it, the server
   reads under "digest" the SHA-1 digest of the password followed by the challenge.
   */
  lemma ServerReadsDigest(ns: seq<Node>, t: Bytes, password: Bytes, challenge: Bytes)
    requires WellFormedBody(MapBody(ns)) && SizeAll(ns) + |t| < TWO_32 && |t| <= 5
    requires var data := SetAll(map[], ValueAll(ns));
             && Ascii("digest") in data && data[Ascii("digest")].Bin?
             && IsDigest(data[Ascii("digest")].bin, password + challenge)
    ensures Deserialize(EncodeAll(ns) + t).Some?
    ensures IsDigest(GetBin(GetData(Deserialize(EncodeAll(ns) + t).value, Ascii("digest"))), password + challenge)
  {
    hide Deserialize, EncodeAll, SetAll, BackAll, ValueAll, IsDigest, Read, Follow, Ascii;
    var path := [Named(Ascii("digest"))];
    DeserializeEncoded(ns, t);
    var before, after := SetAll(map[], ValueAll(ns)), SetAll(map[], BackAll(ns));
    ReadingsSurvive(MapBody(ns), path);
    assert BackTree(MapBody(ns)) == Map(after) && Value(MapBody(ns)) == Map(before);
    OneName(after, Ascii("digest"));
    OneName(before, Ascii("digest"));
  }

  lemma OneName(data: map<Bytes, Tree>, name: Bytes)
    ensures Read(Follow(Some(Map(data)), [Named(name)])).bin == GetBin(GetData(data, name))
  {
    var path := [Named(name)];
    assert path[1..] == [];
    assert Follow(Some(Map(data)), path) == Follow(GetData(data, name), path[1..]);
  }
}
