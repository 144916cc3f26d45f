/** The in-place cipher, the byte packing and the public entry points of
    Core/src/xxtea.cpp, proved against the word functions of XxteaSpec. */
module Xxtea {
  import opened Basics
  import opened Powers
  import opened XxteaSpec
  import opened XxteaPacking
  import opened XxteaMixing

  /** One round of encryption: the inner `for` loop and the step that wraps round. */
  method EncryptRound(data: array<uint32>, key: array<uint32>, sum: uint32, last: uint32)
    returns (z: uint32)
    requires data.Length >= 2 && key.Length == 4 && data != key
    requires last == data[data.Length - 1]
    modifies data
    ensures data[..] == EncSweep(old(data[..]), sum, key[..], data.Length)
    ensures z == data[data.Length - 1]
  {
    hide Mx, Add32, KeyWord;
    var n, e := data.Length - 1, sum / 4 % 4;
    ghost var v, k := data[..], key[..];
    z := last;
    var p, y := 0, 0;
    while p < n
      invariant p <= n && k == key[..]
      invariant data[..] == EncSweep(v, sum, k, p)
      invariant z == data[Prev(data.Length, p)]
    {
      ghost var was := data[..];
      y := data[p + 1];
      data[p] := Add32(data[p], Mx(z, y, sum, KeyAt(key, p, e)));
      z := data[p];
      assert data[..] == EncAt(was, p, sum, k) by { Aligned(key, p, sum); }
      p := p + 1;
    }
    ghost var was := data[..];
    y := data[0];
    data[n] := Add32(data[n], Mx(z, y, sum, KeyAt(key, p, e)));
    z := data[n];
    assert data[..] == EncAt(was, n, sum, k) by { Aligned(key, n, sum); }
  }

  /** `key[(p & 3) ^ e]` */
  function KeyAt(key: array<uint32>, p: nat, e: nat): uint32
    requires key.Length == 4 && e < 4
    reads key
  {
    Pow32();
    key[Xor(2, p % 4, e)]
  }

  lemma Aligned(key: array<uint32>, p: nat, sum: uint32)
    requires key.Length == 4
    ensures KeyAt(key, p, sum / 4 % 4) == KeyWord(key[..], p, sum)
  {
  }

  method UintEncrypt(data: array<uint32>, key: array<uint32>)
    requires 1 <= data.Length < M32 && key.Length == 4 && data != key
    modifies data
    ensures data[..] == EncWords(old(data[..]), key[..])
  {
    hide EncSweep, SumAt, Add32, RoundsFor;
    var n := data.Length - 1;
    var z, q, sum: uint32 := data[n], RoundsFor(n + 1), 0;
    if n < 1 {
      return;
    }
    ghost var v, k, r := data[..], key[..], 0;
    SumNeverZero(0);
    while 0 < q
      invariant k == key[..] && r + q == RoundsFor(n + 1)
      invariant sum == SumAt(r) && z == data[n]
      invariant data[..] == EncRounds(v, k, r)
    {
      q := q - 1;
      r := r + 1;
      SumStep(r);
      sum := Add32(sum, DELTA);
      z := EncryptRound(data, key, sum, z);
    }
  }

  /** One round of decryption: positions n, .., 1 and then 0. */
  method DecryptRound(data: array<uint32>, key: array<uint32>, sum: uint32, first: uint32)
    returns (y: uint32)
    requires data.Length >= 2 && key.Length == 4 && data != key
    requires first == data[0]
    modifies data
    ensures data[..] == DecSweep(old(data[..]), sum, key[..], data.Length)
    ensures y == data[0]
  {
    hide Mx, Sub32, KeyWord;
    var n, e := data.Length - 1, sum / 4 % 4;
    ghost var v, k := data[..], key[..];
    y := first;
    var p, z := n, 0;
    while p > 0
      invariant 0 <= p <= n && k == key[..]
      invariant DecSweep(data[..], sum, k, p + 1) == DecSweep(v, sum, k, n + 1)
      invariant y == data[Next(data.Length, p)]
    {
      ghost var was := data[..];
      z := data[p - 1];
      data[p] := Sub32(data[p], Mx(z, y, sum, KeyAt(key, p, e)));
      y := data[p];
      assert data[..] == DecAt(was, p, sum, k) by { Aligned(key, p, sum); }
      p := p - 1;
    }
    ghost var was := data[..];
    z := data[n];
    data[0] := Sub32(data[0], Mx(z, y, sum, KeyAt(key, p, e)));
    y := data[0];
    assert data[..] == DecAt(was, 0, sum, k) by { Aligned(key, 0, sum); }
  }

  method UintDecrypt(data: array<uint32>, key: array<uint32>)
    requires 1 <= data.Length < M32 && key.Length == 4 && data != key
    modifies data
    ensures data[..] == DecWords(old(data[..]), key[..])
  {
    hide DecSweep, SumAt, Sub32, RoundsFor;
    var n := data.Length - 1;
    var y, q := data[0], RoundsFor(n + 1);
    var sum := TimesDelta(q);
    if n < 1 {
      return;
    }
    ghost var v, k, r := data[..], key[..], q;
    SumNeverZero(r);
    while sum != 0
      invariant k == key[..] && r <= q
      invariant sum == SumAt(r) && y == data[0] && (sum != 0 <==> r != 0)
      invariant DecRounds(data[..], k, r) == DecRounds(v, k, q)
      decreases r
    {
      y := DecryptRound(data, key, sum, y);
      SumStep(r);
      sum := Sub32(sum, DELTA);
      r := r - 1;
      SumNeverZero(r);
      SumNeverZero(0);
    }
  }

  /** `q * DELTA` in 32 bits. */
  method TimesDelta(q: nat) returns (sum: uint32)
    ensures sum == SumAt(q)
  {
    sum := q * DELTA % M32;
  }

  /** Bytes to words, low byte first, with the byte count as a last word if asked for. */
  method ToUintArray(data: seq<byte>, incLen: bool) returns (out: array<uint32>)
    ensures fresh(out)
    ensures out[..] == if incLen then Tagged(data) else WordsOf(data)
    ensures out.Length == (|data| + 3) / 4 + if incLen then 1 else 0
    ensures incLen ==> out[out.Length - 1] == |data| % M32
    ensures forall i :: 0 <= i < |data| ==> i / 4 < out.Length && out[i / 4] / Pow256(i % 4) % 0x100 == data[i]
  {
    hide WordAt, Pow256;
    var n := if |data| % 4 == 0 then |data| / 4 else |data| / 4 + 1;
    if incLen {
      out := new uint32[n + 1](_ => 0);
      out[n] := |data| % M32;
    } else {
      out := new uint32[n](_ => 0);
    }
    forall w: nat | w < n ensures WordAt([], w) == 0 { NothingYet(w); }
    var i := 0;
    while i < |data|
      invariant 0 <= i <= |data|
      invariant forall w :: 0 <= w < n ==> out[w] == WordAt(data[..i], w)
      invariant incLen ==> out[n] == |data| % M32
    {
      OneMoreByte(data, i);
      out[i / 4] := out[i / 4] + data[i] * Pow256(i % 4);
      i := i + 1;
    }
    assert data[..i] == data;
    forall k | 0 <= k < |data| ensures k / 4 < out.Length && out[k / 4] / Pow256(k % 4) % 0x100 == data[k] {
      OctetOfWord(data, k);
    }
  }

  /** Words to bytes with a NUL after them; null if the length word does not fit. */
  method ToUbyteArray(data: array<uint32>, incLen: bool) returns (out: array?<byte>, outLen: nat)
    requires 1 <= data.Length < M32
    ensures incLen && LengthWord(data[..]).None? ==> out == null
    ensures !incLen ==> out != null && outLen == 4 * data.Length
    ensures incLen && LengthWord(data[..]).Some? ==> out != null && outLen == LengthWord(data[..]).value
    ensures out != null ==> fresh(out) && out.Length == outLen + 1 && out[outLen] == 0
                            && outLen <= 4 * data.Length && out[..outLen] == BytesOf(data[..], outLen)
    ensures out != null ==> forall i :: 0 <= i < outLen ==> out[i] == data[i / 4] / Pow256(i % 4) % 0x100
  {
    hide Octet, Pow256;
    var n := data.Length * 4;
    if incLen {
      var m := data[data.Length - 1];
      n := n - 4;
      if m < (n - 3) % M64 || m > n {
        return null, 0;
      }
      n := m;
    }
    out := new byte[n + 1](_ => 0);
    var i := 0;
    while i < n
      invariant 0 <= i <= n
      invariant forall k :: 0 <= k < i ==> out[k] == Octet(data[k / 4], k % 4)
    {
      out[i] := Octet(data[i / 4], i % 4);
      i := i + 1;
    }
    out[n] := 0;
    outLen := n;
    forall k: nat | k < n ensures out[k] == data[k / 4] / Pow256(k % 4) % 0x100 {
      OctetIs(data[k / 4], k % 4);
    }
  }

  /** FIXED_KEY: the first sixteen key bytes, with everything after the first NUL cleared. */
  method FixedKey(key: seq<byte>) returns (fixedKey: seq<byte>)
    requires |key| >= 16
    ensures |fixedKey| == 16
    ensures forall i :: 0 <= i < 16 ==> fixedKey[i] == if 0 in key[..i] then 0 else key[i]
  {
    var a := new byte[16](i requires 0 <= i < 16 => key[i]);
    var i := 0;
    while i < 16 && a[i] != 0
      invariant 0 <= i <= 16 && a[..] == key[..16] && 0 !in key[..i]
    {
      i := i + 1;
    }
    ghost var end := i;
    i := i + 1;
    while i < 16
      invariant end + 1 <= i <= 17 && (end < 16 ==> i <= 16)
      invariant forall j :: 0 <= j < 16 ==> a[j] == if end < j < i then 0 else key[j]
    {
      a[i] := 0;
      i := i + 1;
    }
    fixedKey := a[..];
    forall j | 0 <= j < 16 ensures end < j <==> 0 in key[..j] {
      if end < j { assert key[..j][end] == 0; } else { assert forall t :: 0 <= t < j ==> key[..j][t] == key[..end][t]; }
    }
  }

  /** The specification of FixedKey. */
  function KeyBytes(key: seq<byte>): (k: seq<byte>)
    requires |key| >= 16
    ensures |k| == 16
  {
    seq(16, i requires 0 <= i < 16 => if 0 in key[..i] then 0 else key[i])
  }

  function KeyWords(key: seq<byte>): (k: seq<uint32>)
    requires |key| >= 16
    ensures |k| == 4
  {
    WordsOf(KeyBytes(key))
  }

  /** What `xxtea_encrypt` returns for a non-empty input. */
  function Encrypted(data: seq<byte>, key: seq<byte>): seq<byte>
    requires 0 < |data| < M32 && |key| >= 16
  {
    var words := EncWords(Tagged(data), KeyWords(key));
    BytesOf(words, 4 * |words|)
  }

  /** What `xxtea_decrypt` returns for a non-empty input. */
  function Decrypted(data: seq<byte>, key: seq<byte>): Option<seq<byte>>
    requires 0 < |data| && |key| >= 16
  {
    var words := DecWords(WordsOf(data), KeyWords(key));
    match LengthWord(words)
    case None => None
    case Some(n) => Some(BytesOf(words, n))
  }

  /** `words` hold `data` low byte first, padded with zeros. */
  ghost predicate Holds(words: seq<uint32>, data: seq<byte>) {
    forall i :: 0 <= i < 4 * |words| ==> words[i / 4] / Pow256(i % 4) % 0x100 == if i < |data| then data[i] else 0
  }

  /** The ciphertext from first principles: the words that hold the plaintext and its length are
      the first block, the words that hold the ciphertext the last, and each round sweeps the
      block before it with the words that hold the key up to its first NUL. */
  lemma EncryptedIs(data: seq<byte>, key: seq<byte>) returns (k: seq<uint32>, blocks: seq<seq<uint32>>)
    requires 0 < |data| < M32 && |key| >= 16
    ensures |k| == 4 && Holds(k, KeyBytes(key)) && blocks != [] && XxteaMixing.Rounds(blocks, k)
    ensures var v, n := blocks[0], (|data| + 3) / 4; |v| == n + 1 && v[n] == |data| && Holds(v[..n], data)
    ensures var w := blocks[|blocks| - 1]; |w| == |blocks[0]| && |Encrypted(data, key)| == 4 * |w|
    ensures Holds(blocks[|blocks| - 1], Encrypted(data, key))
    ensures var n := |blocks[0]|; n * (|blocks| - 7) <= 52 < n * (|blocks| - 6)
  {
    hide EncWords, Rounds, Pow256, WordAt, Octet;
    k := KeyWords(key);
    var v := Tagged(data);
    blocks := CipherEquations(v, k);
    WordsHold(KeyBytes(key));
    WordsHold(data);
    var n := (|data| + 3) / 4;
    assert v[..n] == WordsOf(data);
    BytesHold(EncWords(v, k));
  }

  lemma WordsHold(data: seq<byte>)
    ensures Holds(WordsOf(data), data)
  {
    hide WordAt, Octet, Pow256;
    forall i: nat | i < 4 * |WordsOf(data)|
      ensures WordsOf(data)[i / 4] / Pow256(i % 4) % 0x100 == if i < |data| then data[i] else 0
    {
      OctetOfWord(data, i);
      OctetIs(WordsOf(data)[i / 4], i % 4);
    }
  }

  lemma BytesHold(words: seq<uint32>)
    ensures Holds(words, BytesOf(words, 4 * |words|))
  {
    hide Octet, Pow256;
    forall i: nat | i < 4 * |words| ensures words[i / 4] / Pow256(i % 4) % 0x100 == BytesOf(words, 4 * |words|)[i] {
      OctetIs(words[i / 4], i % 4);
    }
  }

  method Encrypt(data: seq<byte>, key: seq<byte>) returns (out: array?<byte>, outLen: nat)
    requires |data| < M32 && |key| >= 16
    ensures out == null <==> data == []
    ensures out != null ==> out.Length == outLen + 1 && out[outLen] == 0
                            && out[..outLen] == Encrypted(data, key)
  {
    hide EncWords;
    var fixedKey := FixedKey(key);
    assert fixedKey == KeyBytes(key);
    if |data| == 0 {
      return null, 0;
    }
    var dataArray := ToUintArray(data, true);
    var keyArray := ToUintArray(fixedKey, false);
    UintEncrypt(dataArray, keyArray);
    out, outLen := ToUbyteArray(dataArray, false);
  }

  method Decrypt(data: seq<byte>, key: seq<byte>) returns (out: array?<byte>, outLen: nat)
    requires |data| <= 4 * (M32 - 1) && |key| >= 16
    ensures out == null <==> data == [] || Decrypted(data, key).None?
    ensures out != null ==> out.Length == outLen + 1 && out[outLen] == 0
                            && Decrypted(data, key) == Some(out[..outLen])
  {
    hide DecWords;
    var fixedKey := FixedKey(key);
    assert fixedKey == KeyBytes(key);
    if |data| == 0 {
      return null, 0;
    }
    var dataArray := ToUintArray(data, false);
    var keyArray := ToUintArray(fixedKey, false);
    UintDecrypt(dataArray, keyArray);
    out, outLen := ToUbyteArray(dataArray, true);
  }

  /** Decrypting an encryption with the same key gives the original bytes. */
  lemma DecryptEncrypted(data: seq<byte>, key: seq<byte>)
    requires 0 < |data| < M32 && |key| >= 16
    ensures |Encrypted(data, key)| == 4 * ((|data| + 3) / 4) + 4
    ensures Decrypted(Encrypted(data, key), key) == Some(data)
  {
    hide EncWords, DecWords, WordsOf, BytesOf, KeyWords;
    var words := EncWords(Tagged(data), KeyWords(key));
    WordsInverse(Tagged(data), KeyWords(key));
    WordsOfBytes(words);
    TagFits(data);
    Unpacked(data);
  }

  /** The other way round: re-encrypting what was decrypted restores a ciphertext of whole
      words if and only if the plaintext words were padded with zeros. */
  lemma EncryptDecrypted(data: seq<byte>, key: seq<byte>)
    requires 0 < |data| < M32 && |data| % 4 == 0 && |key| >= 16
    ensures Decrypted(data, key).Some? ==>
      && 0 < |Decrypted(data, key).value| < M32
      && (Encrypted(Decrypted(data, key).value, key) == data
          <==> ZeroPadded(DecWords(WordsOf(data), KeyWords(key)), |Decrypted(data, key).value|))
  {
    hide EncWords, DecWords, WordsOf, BytesOf, KeyWords, ZeroPadded;
    if Decrypted(data, key).Some? {
      var k := KeyWords(key);
      var words := DecWords(WordsOf(data), k);
      var plain := Decrypted(data, key).value;
      WordsInverse(WordsOf(data), k);
      BytesOfWords(data);
      Padding(words, |plain|);
      if Encrypted(plain, key) == data {
        WordsInverse(Tagged(plain), k);
        WordsOfBytes(EncWords(Tagged(plain), k));
      }
    }
  }

  /** Keys matter only up to their first NUL and their first sixteen bytes. */
  lemma SameKey(key1: seq<byte>, key2: seq<byte>, n: nat)
    requires |key1| >= 16 && |key2| >= 16 && n < 16
    requires key1[..n + 1] == key2[..n + 1] && (key1[n] == 0 || n == 15)
    ensures KeyBytes(key1) == KeyBytes(key2)
  {
    forall i | 0 <= i < 16 ensures KeyBytes(key1)[i] == KeyBytes(key2)[i] {
      if i <= n {
        assert key1[..i] == key1[..n + 1][..i] && key2[..i] == key2[..n + 1][..i];
        assert key1[i] == key1[..n + 1][i] && key2[i] == key2[..n + 1][i];
      } else {
        assert key1[..i][n] == 0 == key1[..n + 1][n] && key2[..i][n] == key2[..n + 1][n];
      }
    }
  }
}
