/** bcrypt as the handlers use it (the `bcryptjs` package):
    `bcrypt.hash(password, 10)` when storing and `bcrypt.compare(password,
    stored)` at login. The hash is kept symbolic. A digest records the cost
    factor and the key that bcrypt's key schedule actually consumes: the
    password's UTF-8 bytes, followed by the terminating zero byte of the `2a`/`2b`
    variants, read cyclically for 72 bytes (18 words of the Blowfish P-array).
    So passwords that agree on that key are indistinguishable, and in
    particular bytes past the 72nd are ignored. Salts and the cipher are not
    modelled. */
module Passwords {

  newtype byte = b: int | 0 <= b < 256

  /** The work factor the backend passes to `bcrypt.hash`. */
  const Cost: nat := 10

  /** The number of key bytes bcrypt's key schedule reads. */
  const KeyLength: nat := 72

  datatype PasswordHash = Bcrypt(cost: nat, key: seq<byte>)

  /** The UTF-8 encoding of one Unicode scalar value. */
  function Utf8(c: char): (bytes: seq<byte>)
    ensures 1 <= |bytes| <= 4
    ensures c != '\0' ==> forall i :: 0 <= i < |bytes| ==> bytes[i] != 0
  {
    var n := c as int;
    if n < 0x80 then [n as byte]
    else if n < 0x800 then [(0xC0 + n / 0x40) as byte, (0x80 + n % 0x40) as byte]
    else if n < 0x1_0000 then
      [(0xE0 + n / 0x1000) as byte, (0x80 + n / 0x40 % 0x40) as byte, (0x80 + n % 0x40) as byte]
    else
      [(0xF0 + n / 0x4_0000 % 8) as byte, (0x80 + n / 0x1000 % 0x40) as byte,
       (0x80 + n / 0x40 % 0x40) as byte, (0x80 + n % 0x40) as byte]
  }

  /** The UTF-8 encoding of a string. */
  function Encode(s: string): (bytes: seq<byte>)
    ensures '\0' !in s ==> 0 !in bytes
  {
    if s == [] then [] else Utf8(s[0]) + Encode(s[1..])
  }

  /** The key bcrypt derives from a password: its bytes and a zero byte,
      repeated cyclically up to `KeyLength` bytes. */
  function Key(password: string): (key: seq<byte>)
    ensures |key| == KeyLength
  {
    var stream := Encode(password) + [0];
    seq(KeyLength, i requires 0 <= i < KeyLength => stream[i % |stream|])
  }

  function Hash(password: string): PasswordHash
  {
    Bcrypt(Cost, Key(password))
  }

  /** `bcrypt.compare(password, stored)`. */
  predicate Matches(password: string, stored: PasswordHash)
  {
    stored.key == Key(password)
  }

  /** A password matches a hash made from it, and a hash made from another
      password exactly when the two share their bcrypt key. */
  lemma MatchesOwnHashOnly(password: string, other: string)
    ensures Matches(password, Hash(password))
    ensures Matches(password, Hash(other)) <==> Key(password) == Key(other)
  {
  }

  /** Up to and including its zero byte, the key is the encoded password
      itself. */
  lemma KeyPrefix(password: string, i: int)
    requires 0 <= i < KeyLength && i <= |Encode(password)|
    ensures Key(password)[i] == (Encode(password) + [0])[i]
  {
    var stream := Encode(password) + [0];
    assert Key(password)[i] == stream[i % |stream|];
    SmallRemainder(i, |stream|);
  }

  /** Isolates the nonlinear step of `KeyPrefix`. */
  lemma SmallRemainder(i: int, n: int)
    requires 0 <= i < n
    ensures i % n == i
  {
  }

  lemma {:induction false} EncodeAppend(s: string, t: string)
    ensures Encode(s + t) == Encode(s) + Encode(t)
  {
    if s != [] {
      assert (s + t)[0] == s[0];
      assert (s + t)[1..] == s[1..] + t;
      EncodeAppend(s[1..], t);
    } else {
      assert s + t == t;
    }
  }

  /** Only the first 72 bytes count: once a password's encoding reaches that
      length, anything appended to it is ignored. */
  lemma LongPasswordsShareKey(prefix: string, x: string, y: string)
    requires |Encode(prefix)| >= KeyLength
    ensures Key(prefix + x) == Key(prefix + y)
  {
    EncodeAppend(prefix, x);
    EncodeAppend(prefix, y);
    forall i | 0 <= i < KeyLength ensures Key(prefix + x)[i] == Key(prefix + y)[i] {
      KeyPrefix(prefix + x, i);
      KeyPrefix(prefix + y, i);
    }
  }

  lemma {:induction false} AsciiEncoding(s: string)
    requires forall i :: 0 <= i < |s| ==> s[i] as int < 0x80
    ensures |Encode(s)| == |s|
  {
    if s != [] {
      AsciiEncoding(s[1..]);
    }
  }

  /** For instance, 73 `a`s log in against the hash of 72 `a`s followed by
      `b`: the two passwords differ only in their 73rd byte. */
  lemma SeventyThirdByteIgnored()
    ensures var prefix := seq(72, _ => 'a');
      Matches(prefix + "a", Hash(prefix + "b"))
  {
    var prefix := seq(72, _ => 'a');
    AsciiEncoding(prefix);
    LongPasswordsShareKey(prefix, "a", "b");
  }

  /** Short passwords are told apart: two passwords without a NUL character,
      whose encodings differ and fit in 71 bytes, have different keys. */
  lemma ShortPasswordsDistinguished(p: string, q: string)
    requires '\0' !in p && '\0' !in q
    requires |Encode(p)| < KeyLength && |Encode(q)| < KeyLength
    requires Encode(p) != Encode(q)
    ensures !Matches(p, Hash(q))
  {
    var ep, eq := Encode(p), Encode(q);
    if |ep| < |eq| {
      KeyPrefix(p, |ep|);
      KeyPrefix(q, |ep|);
      assert eq[|ep|] in eq;
      assert Key(p)[|ep|] != Key(q)[|ep|];
    } else if |eq| < |ep| {
      KeyPrefix(p, |eq|);
      KeyPrefix(q, |eq|);
      assert ep[|eq|] in ep;
      assert Key(p)[|eq|] != Key(q)[|eq|];
    } else {
      var k :| 0 <= k < |ep| && ep[k] != eq[k];
      KeyPrefix(p, k);
      KeyPrefix(q, k);
      assert Key(p)[k] != Key(q)[k];
    }
  }
}
