/** A stand-in for the bcrypt library as the services call it:
    `bcrypt.hashpw(p.encode('utf-8'), bcrypt.gensalt())` and
    `bcrypt.checkpw(p.encode('utf-8'), h)`. The cipher itself is not
    modelled: a hash records its salt and the key bytes bcrypt actually
    reads, which are the first 72 bytes of the password's UTF-8 encoding.
    The random salt that `gensalt()` draws is a parameter. */
module Bcrypt {

  import opened Utf8

  /** bcrypt ignores every key byte after the 72nd (pyca/bcrypt 4.x;
      version 5.0 refuses such keys) */
  const MaxKeyBytes: nat := 72

  type Salt = nat

  datatype Hash = Hash(salt: Salt, key: seq<byte>)

  /** The key bytes bcrypt reads from a password */
  function Key(password: string): (k: seq<byte>)
    ensures |k| <= MaxKeyBytes
    ensures |Encode(password)| <= MaxKeyBytes ==> k == Encode(password)
  {
    var e := Encode(password);
    if |e| <= MaxKeyBytes then e else e[..MaxKeyBytes]
  }

  /** `_hash_password(password)`, with the salt `gensalt()` returned */
  function HashPassword(password: string, salt: Salt): (h: Hash)
    ensures h.salt == salt
  {
    Hash(salt, Key(password))
  }

  /** `bcrypt.checkpw(password.encode('utf-8'), h)` */
  predicate CheckPassword(password: string, h: Hash) {
    Key(password) == h.key
  }

  /** A password always checks against its own hash. */
  lemma CheckOwnHash(password: string, salt: Salt)
    ensures CheckPassword(password, HashPassword(password, salt))
  {
  }

  /** Two hashes of one password under different salts differ. */
  lemma FreshSaltFreshHash(password: string, s1: Salt, s2: Salt)
    requires s1 != s2
    ensures HashPassword(password, s1) != HashPassword(password, s2)
  {
  }

  /** Passwords whose encodings agree on the first 72 bytes are
      interchangeable: bcrypt cannot tell them apart. */
  lemma LongPasswordsCollide(p: string, q: string, salt: Salt)
    requires |Encode(p)| >= MaxKeyBytes && |Encode(q)| >= MaxKeyBytes
    requires Encode(p)[..MaxKeyBytes] == Encode(q)[..MaxKeyBytes]
    ensures CheckPassword(q, HashPassword(p, salt))
  {
    KeyOfLong(p);
    KeyOfLong(q);
  }

  /** The key of a password of at least 72 bytes is its first 72 bytes. */
  lemma KeyOfLong(password: string)
    requires |Encode(password)| >= MaxKeyBytes
    ensures Key(password) == Encode(password)[..MaxKeyBytes]
  {
    var e := Encode(password);
    if |e| == MaxKeyBytes {
      assert e[..MaxKeyBytes] == e;
    }
  }

  /** A concrete instance: two different 73-character passwords that check
      against each other's hash. */
  lemma {:induction false} TruncationWitness(salt: Salt)
    ensures var p := seq(72, _ => 'a') + "b";
            var q := seq(72, _ => 'a') + "c";
            p != q && CheckPassword(q, HashPassword(p, salt))
  {
    var p := seq(72, _ => 'a') + "b";
    var q := seq(72, _ => 'a') + "c";
    assert p[72] != q[72];
    EncodeAscii(p);
    EncodeAscii(q);
    assert Encode(p)[..72] == Encode(q)[..72];
  }
}
