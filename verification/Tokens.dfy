/** Signed, time-limited tokens: base64url JSON, a dot, and the base64url signature of the JSON. */
module Tokens {
  import opened Wrappers
  import opened Base64

  type Bytes = seq<Byte>

  type Positive = n: nat | n > 0 witness 1

  /**
    A JSON value; a float is a fraction. `NonFinite` stands for NaN and the infinities, which Python's JSON reads and
    writes.
    */
  datatype Json =
    | Null
    | Bool(b: bool)
    | Int(n: int)
    | Float(num: int, den: Positive)
    | NonFinite
    | Text(s: string)
    | List(items: seq<Json>)
    | Object(fields: map<string, Json>)

  type Payload = map<string, Json>

  /** JSON printing and reading and the keyed hash, as functions. */
  datatype Codec = Codec(dumps: Payload -> Bytes, loads: Bytes -> Option<Json>, hmac: (Bytes, Bytes) -> Bytes)

  const DIGEST_SIZE: nat := 32

  ghost predicate WellBehaved(codec: Codec) {
    && (forall p: Payload :: codec.loads(codec.dumps(p)) == Some(Object(p)))
    && (forall key, data :: |codec.hmac(key, data)| == DIGEST_SIZE)
  }

  const MAX_TOKEN_LEN: nat := 4096
  const MAX_PAYLOAD_BYTES: nat := 8192

  function Sign(codec: Codec, secret: Bytes, purpose: Bytes, payload: Bytes): Bytes {
    codec.hmac(codec.hmac(secret, purpose), payload)
  }

  function EncodeSigned(codec: Codec, payload: Payload, secret: Bytes, purpose: Bytes): string {
    var bytes := codec.dumps(payload);
    Unpadded(bytes) + "." + Unpadded(Sign(codec, secret, purpose, bytes))
  }

  function Split(s: string, mark: char): (parts: seq<string>)
    ensures |parts| >= 1 && forall k :: 0 <= k < |parts| ==> |parts[k]| <= |s|
  {
    if s == "" then [""]
    else
      var rest := Split(s[1..], mark);
      if s[0] == mark then [""] + rest else [[s[0]] + rest[0]] + rest[1..]
  }

  /** The expiry, 0 if there is none, is a finite number, not a boolean, and not past. */
  predicate ExpiryOk(payload: Payload, now: real) {
    match if "exp" in payload then payload["exp"] else Int(0)
    case Int(n) => n as real >= now
    case Float(num, den) => num as real / den as real >= now
    case _ => false
  }

  function ValidateSigned(codec: Codec, token: string, secret: Bytes, purpose: Bytes, now: real): Option<Payload> {
    if token == "" || |token| > MAX_TOKEN_LEN then None
    else
      var parts := Split(token, '.');
      if |parts| != 2 then None
      else if |parts[0]| > MAX_PAYLOAD_BYTES * 2 then None
      else
        match Decode(Repad(parts[0]))
        case None => None
        case Some(bytes) =>
          if |bytes| > MAX_PAYLOAD_BYTES then None
          else SignatureChecked(codec, bytes, parts[1], secret, purpose, now)
  }

  function SignatureChecked(codec: Codec, bytes: Bytes, signature: string, secret: Bytes, purpose: Bytes,
                            now: real): Option<Payload> {
    match Decode(Repad(signature))
    case None => None
    case Some(sig) =>
      if sig != Sign(codec, secret, purpose, bytes) then None
      else
        match codec.loads(bytes)
        case None => None
        case Some(json) => if json.Object? && ExpiryOk(json.fields, now) then Some(json.fields) else None
  }

  /** Without the two inner caps. */
  function ValidateUncapped(codec: Codec, token: string, secret: Bytes, purpose: Bytes, now: real): Option<Payload> {
    if token == "" || |token| > MAX_TOKEN_LEN then None
    else
      var parts := Split(token, '.');
      if |parts| != 2 then None
      else
        match Decode(Repad(parts[0]))
        case None => None
        case Some(bytes) => SignatureChecked(codec, bytes, parts[1], secret, purpose, now)
  }

  // ---- the promises --------------------------------------------------------------------------------

  lemma {:induction false} NoMarkNoSplit(s: string, mark: char)
    requires forall k :: 0 <= k < |s| ==> s[k] != mark
    ensures Split(s, mark) == [s]
  {
    if s != "" {
      NoMarkNoSplit(s[1..], mark);
      assert [s[0]] + s[1..] == s;
    }
  }

  lemma {:induction false} SplitInTwo(a: string, b: string, mark: char)
    requires (forall k :: 0 <= k < |a| ==> a[k] != mark) && (forall k :: 0 <= k < |b| ==> b[k] != mark)
    ensures Split(a + [mark] + b, mark) == [a, b]
  {
    var s := a + [mark] + b;
    if a == "" {
      NoMarkNoSplit(b, mark);
      assert s == [mark] + b && s[1..] == b;
      assert [""] + [b] == ["", b];
    } else {
      SplitInTwo(a[1..], b, mark);
      assert s[1..] == a[1..] + [mark] + b;
      assert [a[0]] + a[1..] == a;
    }
  }

  /** Split into two: the mark between them, and in neither. */
  lemma {:induction false} SplitParts(s: string, mark: char)
    requires |Split(s, mark)| == 1
    ensures Split(s, mark) == [s] && forall k :: 0 <= k < |s| ==> s[k] != mark
  {
    if s != "" {
      SplitParts(s[1..], mark);
      assert s == [s[0]] + s[1..];
    }
  }

  lemma {:induction false} TwoParts(s: string, mark: char)
    requires |Split(s, mark)| == 2
    ensures var parts := Split(s, mark);
            && s == parts[0] + [mark] + parts[1]
            && (forall k :: 0 <= k < |parts[0]| ==> parts[0][k] != mark)
            && (forall k :: 0 <= k < |parts[1]| ==> parts[1][k] != mark)
  {
    assert s == [s[0]] + s[1..];
    if s[0] == mark {
      SplitParts(s[1..], mark);
    } else {
      TwoParts(s[1..], mark);
    }
  }

  /** What the two halves of a token must come to: signed bytes, the JSON of an object, not expired. */
  ghost predicate Genuine(codec: Codec, head: string, tail: string, secret: Bytes, purpose: Bytes, now: real,
                          p: Payload) {
    var bytes := Decode(Repad(head));
    && bytes.Some? && Decode(Repad(tail)) == Some(codec.hmac(codec.hmac(secret, purpose), bytes.value))
    && codec.loads(bytes.value) == Some(Object(p))
    && match if "exp" in p then p["exp"] else Int(0)
       case Int(n) => n as real >= now
       case Float(num, den) => num as real / den as real >= now
       case _ => false
  }

  /** Exactly the short enough tokens of two dotless halves that are genuine validate, to the object signed. */
  lemma ValidExactly(codec: Codec, token: string, secret: Bytes, purpose: Bytes, now: real, p: Payload)
    ensures ValidateSigned(codec, token, secret, purpose, now) == Some(p) <==>
              && |token| <= 4096
              && exists head, tail ::
                   && token == head + "." + tail && '.' !in head && '.' !in tail
                   && Genuine(codec, head, tail, secret, purpose, now, p)
  {
    InnerCapsRedundant(codec, token, secret, purpose, now);
    if ValidateSigned(codec, token, secret, purpose, now) == Some(p) {
      TwoParts(token, '.');
      var parts := Split(token, '.');
      assert token == parts[0] + "." + parts[1] && '.' !in parts[0] && '.' !in parts[1];
      assert Genuine(codec, parts[0], parts[1], secret, purpose, now, p);
    }
    if head, tail :| token == head + "." + tail && '.' !in head && '.' !in tail &&
                     Genuine(codec, head, tail, secret, purpose, now, p) {
      SplitInTwo(head, tail, '.');
    }
  }

  /** So whatever else is signed, or not signed at all, is refused. */
  lemma ForgedIsRefused(codec: Codec, head: string, tail: string, secret: Bytes, purpose: Bytes, now: real)
    requires '.' !in head && '.' !in tail
    requires Decode(Repad(head)).None? ||
             Decode(Repad(tail)) != Some(codec.hmac(codec.hmac(secret, purpose), Decode(Repad(head)).value))
    ensures ValidateSigned(codec, head + "." + tail, secret, purpose, now) == None
  {
    SplitInTwo(head, tail, '.');
  }

  /** A token validates back to its payload exactly while it has not expired and if its JSON is at most 3,039 bytes. */
  lemma TokenRoundTrip(codec: Codec, payload: Payload, secret: Bytes, purpose: Bytes, now: real)
    requires WellBehaved(codec)
    ensures ValidateSigned(codec, EncodeSigned(codec, payload, secret, purpose), secret, purpose, now) ==
            if |codec.dumps(payload)| <= 3039 && ExpiryOk(payload, now) then Some(payload) else None
  {
    var bytes := codec.dumps(payload);
    var sig := Sign(codec, secret, purpose, bytes);
    UnpaddedReadBack(bytes);
    UnpaddedReadBack(sig);
    SplitInTwo(Unpadded(bytes), Unpadded(sig), '.');
    assert |Unpadded(sig)| == 43;
    assert |EncodeSigned(codec, payload, secret, purpose)| == (4 * |bytes| + 2) / 3 + 44;
    assert |bytes| <= 3039 <==> (4 * |bytes| + 2) / 3 <= 4052;
  }

  /** No token the outer cap lets through can meet either inner one. */
  lemma InnerCapsRedundant(codec: Codec, token: string, secret: Bytes, purpose: Bytes, now: real)
    ensures ValidateSigned(codec, token, secret, purpose, now) == ValidateUncapped(codec, token, secret, purpose, now)
  {
    if token != "" && |token| <= MAX_TOKEN_LEN {
      var parts := Split(token, '.');
      DecodeShrinks(Repad(parts[0]), 0, 0, 0);
      PadsLength(PadCount(|parts[0]|));
    }
  }

  lemma {:induction false} PadsLength(n: nat)
    ensures |Pads(n)| == n
  {
    if n > 0 {
      PadsLength(n - 1);
    }
  }

  // ---- the sub-key cache ----------------------------------------------------------------------------

  const CACHE_MAX: nat := 64

  /** Derived keys by digest of the secret and purpose, dropped all at once when there are too many. */
  class SubkeyCache {
    const codec: Codec
    const digest: Bytes -> Bytes
    var cache: map<(Bytes, Bytes), Bytes>

    constructor (codec: Codec, digest: Bytes -> Bytes)
      requires Collisionless(digest)
      ensures Valid() && cache == map[] && this.codec == codec && this.digest == digest
    {
      this.codec, this.digest := codec, digest;
      cache := map[];
    }

    ghost predicate Valid()
      reads this
    {
      && Collisionless(digest) && |cache| <= CACHE_MAX
      && forall secret: Bytes, purpose: Bytes :: (digest(secret), purpose) in cache ==>
           cache[(digest(secret), purpose)] == codec.hmac(secret, purpose)
    }

    /** The derived key, whatever was asked before. */
    method DeriveTokenSubkey(secret: Bytes, purpose: Bytes) returns (subkey: Bytes)
      requires Valid()
      modifies this`cache
      ensures Valid() && subkey == codec.hmac(secret, purpose) && |cache| <= 64
    {
      var key := (digest(secret), purpose);
      if key in cache {
        return cache[key];
      }
      subkey := codec.hmac(secret, purpose);
      if |cache| >= CACHE_MAX {
        cache := map[];
      }
      cache := cache[key := subkey];
    }

    method SignPayload(secret: Bytes, purpose: Bytes, payload: Bytes) returns (sig: Bytes)
      requires Valid()
      modifies this`cache
      ensures Valid() && sig == Sign(codec, secret, purpose, payload)
    {
      var subkey := DeriveTokenSubkey(secret, purpose);
      sig := codec.hmac(subkey, payload);
    }
  }

  /** The digest is taken to tell secrets apart. */
  ghost predicate Collisionless(digest: Bytes -> Bytes) {
    forall a: Bytes, b: Bytes :: digest(a) == digest(b) ==> a == b
  }
}
