/** The Vigenère cipher transform of main_cipher.cpp: a key normalised to
    upper-case letters, extended in place whenever a text is longer than it,
    and a letter-by-letter map modulo 26 that subtracts the key letter to
    encrypt and adds it back to decrypt. */
module Cipher {
  import opened Ascii
  import opened Arith
  import opened Sequences

  /** One plaintext character enciphered with one key character:
      (p - k + 2 * 'A') % 26 + 'A' with C's `%`. The 2 * 'A' term is 130,
      a multiple of 26, so for letters it only keeps the operand positive. */
  function EncryptChar(p: char, k: char): (c: char)
    ensures '(' <= c <= 'Z'
    ensures IsUpper(p) && IsUpper(k) ==> IsUpper(c) && Rank(c) == (Rank(p) - Rank(k)) % 26
  {
    (CRem26(p as int - k as int + 2 * 'A' as int) + 'A' as int) as char
  }

  /** One ciphertext character deciphered with one key character:
      (c + k - 2 * 'A') % 26 + 'A' with C's `%`, which is negative for a
      character below 'A' paired with a small key letter. */
  function DecryptChar(c: char, k: char): (p: char)
    ensures '(' <= p <= 'Z'
    ensures IsUpper(c) && IsUpper(k) ==> IsUpper(p) && Rank(p) == (Rank(c) + Rank(k)) % 26
  {
    (CRem26(c as int + k as int - 2 * 'A' as int) + 'A' as int) as char
  }

  /** The encryption loop over an already normalised text p, reading key
      position i for text position i. */
  function EncryptWith(p: string, k: string): (c: string)
    requires |p| <= |k|
    ensures |c| == |p|
    ensures forall i :: 0 <= i < |p| ==> c[i] == EncryptChar(p[i], k[i])
    ensures AllUpper(p) && AllUpper(k[..|p|]) ==> AllUpper(c)
  {
    if p == [] then [] else EncryptWith(p[..|p| - 1], k) + [EncryptChar(p[|p| - 1], k[|p| - 1])]
  }

  /** The decryption loop: text position i is deciphered with key position i. */
  function DecryptWith(c: string, k: string): (p: string)
    requires |c| <= |k|
    ensures |p| == |c|
    ensures forall i :: 0 <= i < |c| ==> p[i] == DecryptChar(c[i], k[i])
    ensures AllUpper(c) && AllUpper(k[..|c|]) ==> AllUpper(p)
  {
    if c == [] then [] else DecryptWith(c[..|c| - 1], k) + [DecryptChar(c[|c| - 1], k[|c| - 1])]
  }

  lemma CharRoundTrip(p: char, k: char)
    requires IsUpper(p) && IsUpper(k)
    ensures DecryptChar(EncryptChar(p, k), k) == p
    ensures EncryptChar(DecryptChar(p, k), k) == p
  {
    var e, d := EncryptChar(p, k), DecryptChar(p, k);
    ModSub26(Rank(p), Rank(k));
    ModAdd26(Rank(e), Rank(k));
    ModAdd26(Rank(p), Rank(k));
    ModSub26(Rank(d), Rank(k));
  }

  /** Decrypting with the key that encrypted gives the plaintext back. */
  lemma RoundTrip(p: string, k: string)
    requires |p| <= |k| && AllUpper(p) && AllUpper(k[..|p|])
    ensures DecryptWith(EncryptWith(p, k), k) == p
  {
    forall i | 0 <= i < |p|
      ensures DecryptWith(EncryptWith(p, k), k)[i] == p[i]
    {
      assert IsUpper(k[..|p|][i]);
      CharRoundTrip(p[i], k[i]);
    }
  }

  /** Encrypting what was decrypted with the same key gives the ciphertext back. */
  lemma ReverseRoundTrip(c: string, k: string)
    requires |c| <= |k| && AllUpper(c) && AllUpper(k[..|c|])
    ensures EncryptWith(DecryptWith(c, k), k) == c
  {
    forall i | 0 <= i < |c|
      ensures EncryptWith(DecryptWith(c, k), k)[i] == c[i]
    {
      assert IsUpper(k[..|c|][i]);
      CharRoundTrip(c[i], k[i]);
    }
  }

  lemma EncryptWithStep(p: string, k: string, i: nat)
    requires i < |p| <= |k|
    ensures EncryptWith(p[..i + 1], k) == EncryptWith(p[..i], k) + [EncryptChar(p[i], k[i])]
  {
    TakeStep(p, i);
  }

  lemma DecryptWithStep(c: string, k: string, i: nat)
    requires i < |c| <= |k|
    ensures DecryptWith(c[..i + 1], k) == DecryptWith(c[..i], k) + [DecryptChar(c[i], k[i])]
  {
    TakeStep(c, i);
  }

  /** The key after agrandirKey(t): t characters appended one at a time, the
      i-th appended one read from position i of the key as it stands then.
      Reading position i of an empty string yields its terminating NUL. */
  function Extended(k: string, t: nat): (r: string)
    ensures |r| == |k| + t
    ensures r[..|k|] == k
    ensures forall j :: |k| <= j < |r| ==> r[j] == if k == [] then '\0' else k[j % |k|]
  {
    if t == 0 then k
    else
      var e := Extended(k, t - 1);
      var c := if t - 1 < |e| then e[t - 1] else '\0';
      assert k != [] ==> e[t - 1] == k[(t - 1) % |k|] by {
        if k != [] && t - 1 < |k| {
          ModSmall(t - 1, |k|);
          assert e[..|k|][t - 1] == e[t - 1];
        }
      }
      assert k != [] ==> (t - 1 + |k|) % |k| == (t - 1) % |k| by {
        if k != [] { ModAddN(t - 1, |k|); }
      }
      e + [c]
  }

  /** How many characters encrypt and decrypt append to a key of length
      keyLen before processing len characters. */
  function Growth(len: nat, keyLen: nat): (g: nat)
    ensures keyLen + g == if len > keyLen then len else keyLen
  {
    if len > keyLen then len - keyLen else 0
  }

  /** The text normalisation loop used by the constructor and by encrypt:
      keep the ASCII letters, folding lower case to upper case. */
  method KeepLetters(text: string) returns (out: string)
    ensures out == Letters(text)
  {
    out := "";
    for i := 0 to |text|
      invariant out == Letters(text[..i])
    {
      TakeStep(text, i);
      LettersAppend(text[..i], text[i]);
      if 'A' <= text[i] <= 'Z' {
        out := out + [text[i]];
      } else if 'a' <= text[i] <= 'z' {
        out := out + [(text[i] as int + 'A' as int - 'a' as int) as char];
      }
    }
    TakeAll(text);
  }

  /** Which characters the key may hold: upper-case letters, or only NULs
      when the normalised key was empty. */
  predicate KeyChar(base: string, c: char)
  {
    if base == [] then c == '\0' else IsUpper(c)
  }

  class Vigenere {
    var key: string
    /** The key as normalised by the constructor. */
    ghost const base: string

    /** The object invariant: the key still begins with the normalised key,
        and every extension copied one of its own characters. */
    ghost predicate Valid()
      reads this
    {
      |base| <= |key| && key[..|base|] == base &&
      forall j :: 0 <= j < |key| ==> KeyChar(base, key[j])
    }

    constructor (k: string)
      ensures key == Letters(k) && base == key
      ensures Valid()
    {
      var normalised := KeepLetters(k);
      key := normalised;
      base := normalised;
    }

    method AgrandirKey(taille: nat) returns (r: string)
      requires Valid()
      modifies this
      ensures Valid()
      ensures key == Extended(old(key), taille) && r == key
    {
      ghost var k0 := key;
      for i := 0 to taille
        invariant key == Extended(k0, i)
      {
        var c := if i < |key| then key[i] else '\0';
        key := key + [c];
      }
      r := key;
      assert key[..|base|] == key[..|k0|][..|base|];
      forall j | 0 <= j < |key|
        ensures KeyChar(base, key[j])
      {
        if j < |k0| {
          assert key[..|k0|][j] == key[j];
        }
      }
    }

    /** The guard encrypt and decrypt share: extend the key only when the
        text is longer than it. */
    method Reserve(n: nat)
      requires Valid()
      modifies this
      ensures Valid()
      ensures key == Extended(old(key), Growth(n, |old(key)|))
      ensures n <= |key|
    {
      if n > |key| {
        var grown := AgrandirKey(n - |key|);
      }
    }

    method Encrypt(text: string) returns (resultat: string)
      requires Valid()
      modifies this
      ensures Valid()
      ensures key == Extended(old(key), Growth(|Letters(text)|, |old(key)|))
      ensures |Letters(text)| <= |key|
      ensures resultat == EncryptWith(Letters(text), key)
    {
      var out := KeepLetters(text);
      Reserve(|out|);
      var k := key;
      resultat := "";
      for i := 0 to |out|
        invariant key == k
        invariant resultat == EncryptWith(out[..i], k)
      {
        EncryptWithStep(out, k, i);
        resultat := resultat + [EncryptChar(out[i], k[i])];
      }
      TakeAll(out);
    }

    method Decrypt(text: string) returns (out: string)
      requires Valid()
      modifies this
      ensures Valid()
      ensures key == Extended(old(key), Growth(|text|, |old(key)|))
      ensures |text| <= |key|
      ensures out == DecryptWith(text, key)
    {
      Reserve(|text|);
      var k := key;
      out := "";
      for i := 0 to |text|
        invariant key == k
        invariant out == DecryptWith(text[..i], k)
      {
        DecryptWithStep(text, k, i);
        out := out + [DecryptChar(text[i], k[i])];
      }
      TakeAll(text);
    }
  }

  /** A valid key with a non-empty normalised key holds only upper-case letters. */
  lemma ValidKeyUpper(v: Vigenere, n: int)
    requires v.Valid() && v.base != [] && 0 <= n <= |v.key|
    ensures AllUpper(v.key[..n])
  {
    forall i | 0 <= i < n
      ensures IsUpper(v.key[..n][i])
    {
      assert v.key[..n][i] == v.key[i];
      assert KeyChar(v.base, v.key[i]);
    }
  }

  /** What the program's main does: encrypt a text, then decrypt the result
      with the same object. The decryption is the letters-only upper-case
      form of the text. */
  method EncryptThenDecrypt(k: string, t: string) returns (e: string, d: string)
    requires Letters(k) != [] || Letters(t) == []
    ensures |e| == |Letters(t)| && AllUpper(e)
    ensures d == Letters(t)
  {
    var cipher := new Vigenere(k);
    e := cipher.Encrypt(t);
    if cipher.base != [] {
      ValidKeyUpper(cipher, |Letters(t)|);
    }
    ghost var k1 := cipher.key;
    d := cipher.Decrypt(e);
    assert cipher.key == k1;
    if cipher.base != [] {
      RoundTrip(Letters(t), k1);
    }
  }

  /** Decrypting an upper-case ciphertext and encrypting the result with the
      same object gives the ciphertext back. */
  method DecryptThenEncrypt(k: string, c: string) returns (d: string, e: string)
    requires AllUpper(c)
    requires Letters(k) != [] || c == []
    ensures |d| == |c| && AllUpper(d)
    ensures e == c
  {
    var cipher := new Vigenere(k);
    d := cipher.Decrypt(c);
    if cipher.base != [] {
      ValidKeyUpper(cipher, |c|);
    }
    ghost var k1 := cipher.key;
    LettersOfUpper(d);
    e := cipher.Encrypt(d);
    assert cipher.key == k1;
    if cipher.base != [] {
      ReverseRoundTrip(c, k1);
    }
  }

  // The key extension reads position i of the key as it stands, so after a
  // first extension to a length that is not a multiple of the normalised key
  // length, a second extension no longer repeats the normalised key.

  /** A fresh object's first encryption. */
  method EncryptFresh(k: string, t: string) returns (r: string)
    requires Letters(k) != []
    ensures r == CyclicEncrypt(Letters(k), t)
  {
    var v := new Vigenere(k);
    r := v.Encrypt(t);
    FreshKeyEncrypts(Letters(k), Letters(t));
  }

  /** The key a fresh object extends for its first text p encrypts p as the
      cyclic key does. */
  lemma FreshKeyEncrypts(base: string, p: string)
    requires base != []
    ensures |p| <= |Extended(base, Growth(|p|, |base|))|
    ensures EncryptWith(p, Extended(base, Growth(|p|, |base|))) == EncryptWith(p, CyclicKey(base, |p|))
  {
    var key := Extended(base, Growth(|p|, |base|));
    FreshExtensionIsCyclic(base, Growth(|p|, |base|));
    EncryptWithPrefix(p, key);
    CyclicKeyPrefix(base, |key|, |p|);
  }

  /** Encryption reads only the first |p| key characters. */
  lemma EncryptWithPrefix(p: string, k: string)
    requires |p| <= |k|
    ensures EncryptWith(p, k) == EncryptWith(p, k[..|p|])
  {
    var a, b := EncryptWith(p, k), EncryptWith(p, k[..|p|]);
    forall i | 0 <= i < |p|
      ensures a[i] == b[i]
    {
      assert k[..|p|][i] == k[i];
    }
  }

  lemma CyclicKeyPrefix(base: string, m: nat, n: nat)
    requires base != [] && n <= m
    ensures CyclicKey(base, m)[..n] == CyclicKey(base, n)
  {
  }

  /** Two encryptions on one object: the first one is the cyclic-key
      encryption, the second one uses the first one's key extended again
      from its own beginning. */
  method EncryptTwice(k: string, t1: string, t2: string) returns (first: string, second: string)
    requires Letters(k) != []
    ensures first == CyclicEncrypt(Letters(k), t1)
    ensures var k1 := Extended(Letters(k), Growth(|Letters(t1)|, |Letters(k)|));
            second == EncryptWith(Letters(t2), Extended(k1, Growth(|Letters(t2)|, |k1|)))
  {
    var v := new Vigenere(k);
    first := v.Encrypt(t1);
    FreshKeyEncrypts(Letters(k), Letters(t1));
    second := v.Encrypt(t2);
  }

  /** Counterexample: with key "AB", encrypting "AAA" and then "AAAA" on one
      object gives "AZAA" for the second text, while the cyclic key "ABAB"
      gives "AZAZ". */
  lemma StaleKeyCounterexample()
    ensures Letters("AB") == "AB" && Letters("AAA") == "AAA" && Letters("AAAA") == "AAAA"
    ensures EncryptWith("AAAA", Extended(Extended("AB", 1), 1)) == "AZAA"
    ensures CyclicEncrypt("AB", "AAAA") == "AZAZ"
  {
    LettersAB();
    LettersAAA();
    LettersAAAA();
    SampleStaleEncryption();
    SampleCyclicEncryption();
  }

  /** The counterexample on one object: the second of two encryptions with
      key "AB" comes out as "AZAA", not as the cyclic-key "AZAZ". */
  method StaleKeyOnOneObject() returns (second: string)
    ensures second == "AZAA"
    ensures second != CyclicEncrypt("AB", "AAAA")
  {
    var first;
    first, second := EncryptTwice("AB", "AAA", "AAAA");
    StaleKeyCounterexample();
    SampleKeys();
  }

  // The sample texts are already normalised.

  lemma LettersAB()
    ensures Letters("AB") == "AB"
  {
    LettersOfUpper("AB");
  }

  lemma LettersAAA()
    ensures Letters("AAA") == "AAA"
  {
    LettersOfUpper("AAA");
  }

  lemma LettersAAAA()
    ensures Letters("AAAA") == "AAAA"
  {
    LettersOfUpper("AAAA");
  }

  lemma SampleStaleEncryption()
    ensures EncryptWith("AAAA", Extended(Extended("AB", 1), 1)) == "AZAA"
  {
    SampleKeys();
    SampleEncryptions();
  }

  lemma SampleCyclicEncryption()
    ensures CyclicEncrypt("AB", "AAAA") == "AZAZ"
  {
    LettersAAAA();
    FreshExtensionIsCyclic("AB", 2);
    SampleKeys();
    assert CyclicKey("AB", 4) == "ABAB";
    SampleEncryptions();
  }

  lemma SampleKeys()
    ensures Extended("AB", 1) == "ABA"
    ensures Extended("ABA", 1) == "ABAA"
    ensures Extended("AB", 2) == "ABAB"
  {
    var e1 := Extended("AB", 1);
    assert e1[..2] == "AB";
    var e2 := Extended("ABA", 1);
    assert e2[..3] == "ABA";
    var e3 := Extended("AB", 2);
    assert e3[..2] == "AB";
  }

  lemma SampleEncryptions()
    ensures EncryptWith("AAAA", "ABAA") == "AZAA"
    ensures EncryptWith("AAAA", "ABAB") == "AZAZ"
  {
    assert EncryptChar('A', 'A') == 'A';
    assert EncryptChar('A', 'B') == 'Z';
  }

  /** The key the cipher is meant to use for n letters: the normalised key
      repeated cyclically. */
  function CyclicKey(base: string, n: nat): (k: string)
    requires base != []
    ensures |k| == n
  {
    seq(n, j requires 0 <= j < n => base[j % |base|])
  }

  /** The cyclic key holds upper-case letters only. */
  lemma CyclicKeyUpper(base: string, n: nat, m: nat)
    requires base != [] && AllUpper(base) && m <= n
    ensures AllUpper(CyclicKey(base, n)[..m])
  {
    var k := CyclicKey(base, n);
    forall i | 0 <= i < m
      ensures IsUpper(k[..m][i])
    {
      assert k[..m][i] == base[i % |base|];
    }
  }

  /** c is the upper-case text p enciphered with base repeated: letter i of
      c is letter i of p moved back by the rank of base[i mod |base|]. */
  predicate SubtractsKey(c: string, p: string, base: string)
    requires base != []
  {
    |c| == |p| && AllUpper(c) && AllUpper(p) &&
    forall i :: 0 <= i < |c| ==> Rank(c[i]) == (Rank(p[i]) - Rank(base[i % |base|])) % 26
  }

  /** Encryption of an upper-case text p with the cyclic key, position by position. */
  lemma CyclicEncryptAt(base: string, p: string)
    requires base != [] && AllUpper(base) && AllUpper(p)
    ensures SubtractsKey(EncryptWith(p, CyclicKey(base, |p|)), p, base)
  {
    CyclicKeyUpper(base, |p|, |p|);
    forall i | 0 <= i < |p| {
      CyclicEncryptRank(base, p, i);
    }
  }

  lemma CyclicEncryptRank(base: string, p: string, i: nat)
    requires base != [] && AllUpper(base) && i < |p| && IsUpper(p[i])
    ensures Rank(EncryptWith(p, CyclicKey(base, |p|))[i]) == (Rank(p[i]) - Rank(base[i % |base|])) % 26
  {
    var kc := base[i % |base|];
    assert CyclicKey(base, |p|)[i] == kc;
    assert EncryptWith(p, CyclicKey(base, |p|))[i] == EncryptChar(p[i], kc);
  }

  /** Encryption with the cyclically repeated key: letter i of the text is
      combined with base[i mod |base|], whatever was encrypted before. */
  function CyclicEncrypt(base: string, text: string): (c: string)
    requires base != [] && AllUpper(base)
    ensures SubtractsKey(c, Letters(text), base)
  {
    var p := Letters(text);
    CyclicEncryptAt(base, p);
    EncryptWith(p, CyclicKey(base, |p|))
  }

  /** Decryption with the cyclically repeated key. */
  function CyclicDecrypt(base: string, text: string): (p: string)
    requires base != [] && AllUpper(base)
    ensures |p| == |text|
    ensures AllUpper(text) ==> AllUpper(p) && forall i :: 0 <= i < |p| ==>
      Rank(p[i]) == (Rank(text[i]) + Rank(base[i % |base|])) % 26
  {
    var k := CyclicKey(base, |text|);
    CyclicKeyUpper(base, |text|, |text|);
    var p := DecryptWith(text, k);
    assert AllUpper(text) ==> forall i :: 0 <= i < |p| ==> Rank(p[i]) == (Rank(text[i]) + Rank(base[i % |base|])) % 26 by {
      if AllUpper(text) {
        forall i | 0 <= i < |p|
          ensures Rank(p[i]) == (Rank(text[i]) + Rank(base[i % |base|])) % 26
        {
          assert p[i] == DecryptChar(text[i], base[i % |base|]);
          assert IsUpper(text[i]) && IsUpper(base[i % |base|]);
        }
      }
    }
    p
  }

  lemma CyclicRoundTrip(base: string, text: string)
    requires base != [] && AllUpper(base)
    ensures CyclicDecrypt(base, CyclicEncrypt(base, text)) == Letters(text)
  {
    var p := Letters(text);
    CyclicKeyUpper(base, |p|, |p|);
    RoundTrip(p, CyclicKey(base, |p|));
  }

  lemma CyclicReverseRoundTrip(base: string, c: string)
    requires base != [] && AllUpper(base) && AllUpper(c)
    ensures CyclicEncrypt(base, CyclicDecrypt(base, c)) == c
  {
    var k := CyclicKey(base, |c|);
    CyclicKeyUpper(base, |c|, |c|);
    LettersOfUpper(DecryptWith(c, k));
    ReverseRoundTrip(c, k);
  }

  /** On a freshly constructed object the key extension is the cyclic key. */
  lemma FreshExtensionIsCyclic(base: string, t: nat)
    requires base != []
    ensures Extended(base, t) == CyclicKey(base, |base| + t)
  {
    var r := Extended(base, t);
    forall j | 0 <= j < |r|
      ensures r[j] == CyclicKey(base, |base| + t)[j]
    {
      if j < |base| {
        assert r[..|base|][j] == r[j];
        ModSmall(j, |base|);
      }
    }
  }

  /** The extension is still the cyclic key when the key being extended is
      the cyclic key of a length that is a multiple of the normalised key
      length. So a second extension stays cyclic after whole periods, and
      the stale-key effect needs a length that is not a multiple of the
      normalised key length. */
  lemma ExtensionOfWholePeriods(base: string, m: nat, t: nat)
    requires base != [] && m >= 1
    ensures Extended(CyclicKey(base, m * |base|), t) == CyclicKey(base, m * |base| + t)
  {
    var n := |base|;
    var l := m * n;
    MulAtLeast(m, n);
    var k := CyclicKey(base, l);
    var r := Extended(k, t);
    forall j | 0 <= j < |r|
      ensures r[j] == CyclicKey(base, l + t)[j]
    {
      if j < l {
        assert r[..l][j] == r[j];
      } else {
        ModOfMultiple(j, m, n);
      }
    }
  }
}
