/** Keys written as words (`key_to_mnemonic`, `mnemonic_to_key`). SHA-256 is any function from
    byte strings to 64-character digests: nothing else about it is used. */
module Mnemonic {
  import opened Wrappers
  import opened Text
  import opened Decimal

  type bit = b: int | 0 <= b < 2
  type HexDigest = d: seq<byte> | |d| == 64 witness seq(64, _ => 48)

  datatype Failure = ValueError | FailedChecksumError

  /** A word list `mnemonic_to_key` can search: 2048 space-free words in strictly increasing order. */
  ghost predicate WordList(wl: seq<string>) {
    && |wl| == 2048
    && (forall w :: w in wl ==> ' ' !in w)
    && (forall i, j :: 0 <= i < j < |wl| ==> LexLe(wl[i], wl[j]) && wl[i] != wl[j])
  }

  // ---------------------------------------------------------------------------------------
  // Numbers and bits
  // ---------------------------------------------------------------------------------------

  function Pow2(n: nat): (p: nat)
    ensures p >= 1
  {
    if n == 0 then 1 else 2 * Pow2(n - 1)
  }

  /** `c` in `n` bits, most significant first; higher bits are dropped. */
  function Bits(c: nat, n: nat): (r: seq<bit>)
    ensures |r| == n
  {
    if n == 0 then [] else Bits(c / 2, n - 1) + [c % 2]
  }

  /** `int(bits, 2)` of a non-empty bit string. */
  function Value(bits: seq<bit>): nat {
    if bits == [] then 0 else 2 * Value(bits[..|bits| - 1]) + bits[|bits| - 1]
  }

  lemma {:induction false} BitsOfValue(bits: seq<bit>)
    ensures Bits(Value(bits), |bits|) == bits
    ensures Value(bits) < Pow2(|bits|)
  {
    if bits != [] {
      var front := bits[..|bits| - 1];
      BitsOfValue(front);
      assert Value(bits) / 2 == Value(front) && Value(bits) % 2 == bits[|bits| - 1];
      assert bits == front + [bits[|bits| - 1]];
    }
  }

  lemma {:induction false} ValueOfBits(c: nat, n: nat)
    requires c < Pow2(n)
    ensures Value(Bits(c, n)) == c
  {
    if n > 0 {
      ValueOfBits(c / 2, n - 1);
      assert Bits(c, n)[..n - 1] == Bits(c / 2, n - 1);
    }
  }

  lemma Powers()
    ensures Pow2(8) == 256 && Pow2(11) == 2048
  {
    assert Pow2(4) == 16;
    assert Pow2(8) == 256;
  }

  /** `bin(c)[2:]`. */
  function Bin(c: nat): (r: seq<bit>)
    ensures |r| >= 1
  {
    if c < 2 then [c] else Bin(c / 2) + [c % 2]
  }

  function Zeros(n: nat): (r: seq<bit>)
    ensures |r| == n
  {
    if n == 0 then [] else Zeros(n - 1) + [0]
  }

  /** `("0" * n + bin(c)[2:])[-n:]`. */
  function PaddedBin(c: nat, n: nat): (r: seq<bit>)
    requires n >= 1
    ensures |r| == n
  {
    var s := Zeros(n) + Bin(c);
    s[|s| - n..]
  }

  lemma {:induction false} BitsOfZero(n: nat)
    ensures Bits(0, n) == Zeros(n)
  {
    if n > 0 { BitsOfZero(n - 1); }
  }

  lemma {:induction false} ZerosSplit(n: nat, k: nat)
    requires k <= n
    ensures Zeros(n)[n - k..] == Zeros(k)
  {
    if k > 0 {
      ZerosSplit(n - 1, k - 1);
      assert Zeros(n)[n - k..] == Zeros(n - 1)[n - k..] + [0];
    }
  }

  /** The source's pad-and-cut writes exactly the low `n` bits. */
  lemma {:induction false} PaddedBinIsBits(c: nat, n: nat, z: nat)
    requires n <= z
    ensures var s := Zeros(z) + Bin(c); s[|s| - n..] == Bits(c, n)
    decreases n
  {
    var s := Zeros(z) + Bin(c);
    if n == 0 {
    } else if c < 2 {
      BitsOfZero(n - 1);
      ZerosSplit(z, n - 1);
      assert s[|s| - n..] == Zeros(z)[z - (n - 1)..] + [c];
    } else {
      PaddedBinIsBits(c / 2, n - 1, z);
      var t := Zeros(z) + Bin(c / 2);
      assert s == t + [c % 2];
      assert s[|s| - n..] == t[|t| - (n - 1)..] + [c % 2];
    }
  }

  // ---------------------------------------------------------------------------------------
  // Packing and cutting bit strings
  // ---------------------------------------------------------------------------------------

  /** The bit strings of the numbers, one after the other. */
  function Packed(arr: seq<nat>, n: nat): seq<bit> {
    if arr == [] then [] else Bits(arr[0], n) + Packed(arr[1..], n)
  }

  lemma {:induction false} PackedLength(arr: seq<nat>, n: nat)
    ensures |Packed(arr, n)| == |arr| * n
  {
    if arr != [] {
      PackedLength(arr[1..], n);
      assert |arr| * n == (|arr| - 1) * n + n;
    }
  }

  lemma {:induction false} PackedSnoc(arr: seq<nat>, c: nat, n: nat)
    ensures Packed(arr + [c], n) == Packed(arr, n) + Bits(c, n)
  {
    if arr == [] {
      assert (arr + [c])[1..] == [];
    } else {
      PackedSnoc(arr[1..], c, n);
      assert (arr + [c])[1..] == arr[1..] + [c];
    }
  }

  /** Bit k of a number in n bits, by division. */
  lemma {:induction false} BitAt(c: nat, n: nat, k: nat)
    requires k < n
    ensures Bits(c, n)[k] == (c / Pow2(n - 1 - k)) % 2
    decreases n
  {
    if k < n - 1 {
      BitAt(c / 2, n - 1, k);
      HalfThenDivide(c, Pow2(n - 2 - k));
    }
  }

  lemma HalfThenDivide(c: nat, m: nat)
    requires m >= 1
    ensures c / 2 / m == c / (2 * m)
  {
    var q := c / 2 / m;
    assert c / 2 == q * m + c / 2 % m;
    assert c == 2 * (q * m) + (2 * (c / 2 % m) + c % 2);
    QuotientIs(c, q, 2 * (c / 2 % m) + c % 2, 2 * m);
  }

  lemma QuotientIs(c: nat, q: nat, r: nat, m: nat)
    requires 0 <= r < m && c == q * m + r
    ensures c / m == q
  {
    var d := c / m;
    assert c == d * m + c % m;
    assert (q - d) * m == q * m - d * m;
    if q > d { AtLeastOnce(q - d, m); }
    assert (d - q) * m == d * m - q * m;
    if q < d { AtLeastOnce(d - q, m); }
  }

  lemma AtLeastOnce(a: nat, m: nat)
    requires a >= 1
    ensures a * m >= m
  {
    assert a * m == (a - 1) * m + m;
  }

  /** Bit i of the joined bytes. */
  lemma {:induction false} ByteBit(arr: seq<byte>, i: nat)
    requires i < 8 * |arr|
    ensures |Packed(arr, 8)| == 8 * |arr|
    ensures Packed(arr, 8)[i] == (arr[i / 8] / Pow2(7 - i % 8)) % 2
  {
    PackedLength(arr, 8);
    PackedLength(arr[1..], 8);
    if i < 8 {
      BitAt(arr[0], 8, i);
    } else {
      ByteBit(arr[1..], i - 8);
      assert (i - 8) / 8 == i / 8 - 1 && (i - 8) % 8 == i % 8;
    }
  }

  /** `[int(bits[i : i + k], 2) for i in range(0, len(bits), k)]`: the last piece may be short. */
  function Chunks(bits: seq<bit>, k: nat): (r: seq<nat>)
    requires k >= 1
  {
    if bits == [] then []
    else if |bits| <= k then [Value(bits)]
    else [Value(bits[..k])] + Chunks(bits[k..], k)
  }

  lemma {:induction false} ChunksSmall(bits: seq<bit>, k: nat)
    requires k >= 1
    ensures forall c :: c in Chunks(bits, k) ==> c < Pow2(k)
  {
    if |bits| > k {
      BitsOfValue(bits[..k]);
      ChunksSmall(bits[k..], k);
    } else {
      BitsOfValue(bits);
      Pow2Grows(|bits|, k);
    }
  }

  lemma Pow2Grows(a: nat, b: nat)
    requires a <= b
    ensures Pow2(a) <= Pow2(b)
  {}

  /** A bit string of whole pieces is packed again from its pieces. */
  lemma {:induction false} PackChunks(bits: seq<bit>, k: nat, n: nat)
    requires k >= 1 && |bits| == n * k
    ensures |Chunks(bits, k)| == n
    ensures Packed(Chunks(bits, k), k) == bits
    decreases n
  {
    if n > 0 {
      assert |bits[k..]| == (n - 1) * k && |bits| >= k by { assert n * k == (n - 1) * k + k; }
      PackChunks(bits[k..], k, n - 1);
      PackFirstChunk(bits, k);
    }
  }

  lemma PackFirstChunk(bits: seq<bit>, k: nat)
    requires 1 <= k <= |bits|
    requires Packed(Chunks(bits[k..], k), k) == bits[k..]
    ensures |Chunks(bits, k)| == 1 + |Chunks(bits[k..], k)|
    ensures Packed(Chunks(bits, k), k) == bits
  {
    var head, tail := bits[..k], bits[k..];
    assert bits == head + tail;
    assert Chunks(bits, k) == [Value(head)] + Chunks(tail, k) by {
      if |bits| == k { assert tail == [] && head == bits; }
    }
    BitsOfValue(head);
    assert Chunks(bits, k)[1..] == Chunks(tail, k);
  }

  lemma ZeroProduct(a: nat, k: nat)
    requires a * k == 0 && k >= 1
    ensures a == 0
  {}

  /** Numbers that fit their width are cut back out of the packed bit string. */
  lemma {:induction false} ChunksPack(arr: seq<nat>, k: nat)
    requires k >= 1 && forall c :: c in arr ==> c < Pow2(k)
    ensures Chunks(Packed(arr, k), k) == arr
  {
    if arr != [] {
      var bits, rest := Packed(arr, k), Packed(arr[1..], k);
      assert arr[0] in arr && forall c :: c in arr[1..] ==> c in arr;
      ValueOfBits(arr[0], k);
      ChunksPack(arr[1..], k);
      assert bits[..k] == Bits(arr[0], k) && bits[k..] == rest;
      assert arr == [arr[0]] + arr[1..];
      if rest == [] {
        PackedLength(arr[1..], k);
        ZeroProduct(|arr[1..]|, k);
        assert bits == bits[..k];
      }
    }
  }

  /** Piece lengths: a last short piece still counts. */
  lemma {:induction false} ChunksCount(bits: seq<bit>, n: nat, r: nat)
    requires |bits| == 8 * n + r && 1 <= r <= 8
    ensures |Chunks(bits, 8)| == n + 1
    decreases n
  {
    if n > 0 { ChunksCount(bits[8..], n - 1, r); }
  }

  /** `to_bin(arr, bytelen)`. */
  method ToBin(arr: seq<nat>, bytelen: nat) returns (result: seq<bit>)
    requires bytelen >= 1
    ensures result == Packed(arr, bytelen)
    ensures |result| == |arr| * bytelen
  {
    result := [];
    for i := 0 to |arr|
      invariant result == Packed(arr[..i], bytelen)
    {
      PaddedBinIsBits(arr[i], bytelen, bytelen);
      PackedSnoc(arr[..i], arr[i], bytelen);
      assert arr[..i] + [arr[i]] == arr[..i + 1];
      result := result + PaddedBin(arr[i], bytelen);
    }
    assert arr[..|arr|] == arr;
    PackedLength(arr, bytelen);
  }

  // ---------------------------------------------------------------------------------------
  // Words
  // ---------------------------------------------------------------------------------------

  /** The first index from `i` on whose word is not below `word`; the last index when there is none. */
  function LowerBoundFrom(word: string, wl: seq<string>, i: nat): (r: nat)
    requires i < |wl|
    ensures i <= r < |wl|
    ensures forall j :: i <= j < r ==> !LexLe(word, wl[j])
    ensures r < |wl| - 1 ==> LexLe(word, wl[r])
    decreases |wl| - i
  {
    if i == |wl| - 1 || LexLe(word, wl[i]) then i else LowerBoundFrom(word, wl, i + 1)
  }

  function LowerBound(word: string, wl: seq<string>): (r: nat)
    ensures wl != [] ==> r < |wl|
    ensures wl == [] ==> r == 0
  {
    if wl == [] then 0 else LowerBoundFrom(word, wl, 0)
  }

  /** `_word_index`: the binary search finds the lower bound in any sorted list. */
  method WordIndex(word: string, wl: seq<string>) returns (lo: nat)
    requires forall i, j :: 0 <= i < j < |wl| ==> LexLe(wl[i], wl[j])
    ensures lo == LowerBound(word, wl)
    ensures word in wl ==> wl[lo] == word
  {
    lo := 0;
    var hi := |wl| - 1;
    while lo < hi
      invariant wl != [] ==> lo <= hi < |wl|
      invariant wl == [] ==> lo == 0
      invariant forall j :: 0 <= j < lo && j < |wl| ==> !LexLe(word, wl[j])
      invariant 0 <= hi < |wl| - 1 ==> LexLe(word, wl[hi])
    {
      var mid := (lo + hi) / 2;
      if LexLe(word, wl[mid]) {
        hi := mid;
      } else {
        forall j | 0 <= j <= mid ensures !LexLe(word, wl[j]) {
          if LexLe(word, wl[j]) && j < mid { LexTransitive(word, wl[j], wl[mid]); }
        }
        lo := mid + 1;
      }
    }
    if wl != [] {
      var b := LowerBound(word, wl);
      assert b == lo;
      if word in wl { ListedWordIndex(word, wl); }
    }
  }

  /** A listed word is found at its own place. */
  lemma ListedWordIndex(word: string, wl: seq<string>)
    requires forall i, j :: 0 <= i < j < |wl| ==> LexLe(wl[i], wl[j])
    requires word in wl
    ensures wl[LowerBound(word, wl)] == word
  {
    var k :| 0 <= k < |wl| && wl[k] == word;
    LexReflexive(word);
    var b := LowerBound(word, wl);
    assert b <= k;
    if b < k { LexAntisymmetric(word, wl[b]); }
  }

  function Indexes(words: seq<string>, wl: seq<string>): (r: seq<nat>)
    ensures |r| == |words|
    ensures forall i :: 0 <= i < |words| ==> r[i] == LowerBound(words[i], wl)
  {
    seq(|words|, i requires 0 <= i < |words| => LowerBound(words[i], wl))
  }

  predicate Below(idx: seq<nat>, n: nat) {
    forall i :: 0 <= i < |idx| ==> idx[i] < n
  }

  function WordsAt(idx: seq<nat>, wl: seq<string>): (r: seq<string>)
    requires Below(idx, |wl|)
    ensures |r| == |idx|
    ensures forall i :: 0 <= i < |idx| ==> r[i] == wl[idx[i]]
  {
    seq(|idx|, i requires 0 <= i < |idx| => wl[idx[i]])
  }

  // ---------------------------------------------------------------------------------------
  // The codec as a function
  // ---------------------------------------------------------------------------------------

  function Min(a: nat, b: nat): nat { if a < b then a else b }

  /** `to_bin(sha256_hash)[0:n]`: never more than the 512 bits the digest has. */
  function Checksum(digest: HexDigest, n: nat): (r: seq<bit>)
    ensures |r| == Min(n, 512)
  {
    PackedLength(digest, 8);
    Packed(digest, 8)[..Min(n, 512)]
  }

  /** `strength // 32`: one checksum bit for four bytes. */
  function ChecksumLength(bytes: nat): nat { bytes * 8 / 32 }

  /** `total_length // 11`. */
  function WordCount(bytes: nat): nat { (bytes * 8 + ChecksumLength(bytes)) / 11 }

  /** The data bits and checksum bits `key_to_mnemonic` cuts into words. */
  function KeyBits(key: seq<byte>, sha: seq<byte> -> HexDigest): seq<bit> {
    Packed(key, 8) + Checksum(sha(key), ChecksumLength(|key|))
  }

  /** `n` slices of 11 bits; a missing slice is `int("", 2)`, a short one is read as it is. */
  function Slices(bits: seq<bit>, n: nat): (r: Option<seq<nat>>)
    ensures r.Some? ==> |r.value| == n && Below(r.value, 2048)
  {
    if n == 0 then Some([])
    else if bits == [] then None
    else
      var k := Min(11, |bits|);
      BitsOfValue(bits[..k]);
      Pow2Grows(k, 11);
      Powers();
      var rest := Slices(bits[k..], n - 1);
      if rest.None? then None else Some([Value(bits[..k])] + rest.value)
  }

  function Encode(key: seq<byte>, wl: seq<string>, sha: seq<byte> -> HexDigest): Result<string, Failure>
    requires |wl| == 2048
  {
    var idx := Slices(KeyBits(key, sha), WordCount(|key|));
    if idx.None? then Err(ValueError)
    else Ok(JoinWith(WordsAt(idx.value, wl), ' '))
  }

  function Decode(mnemonic: string, wl: seq<string>, sha: seq<byte> -> HexDigest): Result<seq<byte>, Failure> {
    var idx := Indexes(SplitOn(mnemonic, ' '), wl);
    DecodeIndexes(idx, sha)
  }

  /** The bytes of a bit string cut in eights. */
  function Bytes(bits: seq<bit>): (r: seq<byte>)
    ensures r == Chunks(bits, 8)
  {
    ChunksSmall(bits, 8);
    Powers();
    var cs := Chunks(bits, 8);
    assert forall i :: 0 <= i < |cs| ==> cs[i] in cs;
    cs
  }

  /** The bits of key among the bits of the words: `total_length * 32 // 33`. */
  function Strength(words: nat): (r: nat)
    ensures r <= 11 * words
    ensures r == 32 * (words / 3) + (if words % 3 == 0 then 0 else if words % 3 == 1 then 10 else 21)
  {
    words * 11 * 32 / 33
  }

  function DecodeIndexes(idx: seq<nat>, sha: seq<byte> -> HexDigest): Result<seq<byte>, Failure> {
    var bits := Packed(idx, 11);
    var strength := Strength(|idx|);
    PackedLength(idx, 11);
    var key := Bytes(bits[..strength]);
    if Checksum(sha(key), ChecksumLength(|key|)) == bits[strength..] then Ok(key) else Err(FailedChecksumError)
  }

  // ---------------------------------------------------------------------------------------
  // The source's loops
  // ---------------------------------------------------------------------------------------

  /** `bits[i * 11 : (i + 1) * 11]`, clamped to the string as Python slices are. */
  function Slice(bits: seq<bit>, i: nat): (r: seq<bit>)
    ensures |r| <= 11
  {
    bits[Min(i * 11, |bits|)..Min((i + 1) * 11, |bits|)]
  }

  function Rest(bits: seq<bit>, i: nat): seq<bit> { bits[Min(i * 11, |bits|)..] }

  /** Concatenation of " " + word. */
  function Sentence(words: seq<string>): string {
    if words == [] then "" else " " + words[0] + Sentence(words[1..])
  }

  lemma {:induction false} SentenceSnoc(words: seq<string>, w: string)
    ensures Sentence(words + [w]) == Sentence(words) + " " + w
  {
    if words == [] {
      assert (words + [w])[1..] == [];
    } else {
      SentenceSnoc(words[1..], w);
      assert (words + [w])[1..] == words[1..] + [w];
    }
  }

  lemma {:induction false} SentenceJoin(words: seq<string>)
    ensures words != [] ==> Sentence(words) == " " + JoinWith(words, ' ')
  {
    if |words| == 1 {
      assert Sentence(words[1..]) == "";
    } else if words != [] {
      SentenceJoin(words[1..]);
    }
  }

  /** `key_to_mnemonic`. */
  method KeyToMnemonic(key: seq<byte>, wl: seq<string>, sha: seq<byte> -> HexDigest)
      returns (r: Result<string, Failure>)
    requires |wl| == 2048
    ensures r == Encode(key, wl, sha)
  {
    var hash := sha(key);
    var strength := |key| * 8;
    var checksum_length := strength / 32;
    var total_length := strength + checksum_length;
    var keyBits := ToBin(key, 8);
    var hashBits := ToBin(hash, 8);
    var binary := keyBits + hashBits[..Min(checksum_length, |hashBits|)];
    assert binary == KeyBits(key, sha);
    assert binary[..Min(total_length, |binary|)] == binary;
    var sentence := WriteWords(binary, total_length / 11, wl);
    r := if sentence.None? then Err(ValueError) else Ok(sentence.value);
  }

  /** The loop of `key_to_mnemonic`; no sentence when a slice is empty. */
  method WriteWords(binary: seq<bit>, count: nat, wl: seq<string>) returns (r: Option<string>)
    requires |wl| == 2048
    ensures var idx := Slices(binary, count);
      r == if idx.None? then None else Some(JoinWith(WordsAt(idx.value, wl), ' '))
  {
    var sentence := "";
    ghost var done: seq<nat> := [];
    Started(binary, count, wl);
    for i := 0 to count
      invariant |done| == i && Written(binary, count, wl, done, sentence)
    {
      var piece := Slice(binary, i);
      if piece == [] {
        NoMoreSlices(binary, count, wl, done, sentence);
        return None;
      }
      SliceWritten(binary, count, wl, done, sentence);
      sentence := sentence + " " + wl[Value(piece)];
      done := done + [Value(piece)];
    }
    AllWritten(binary, count, wl, done, sentence);
    r := Some(if sentence == "" then "" else sentence[1..]);
  }

  /** The loop has turned the first slices into words: `done` are their numbers. */
  ghost predicate Written(binary: seq<bit>, count: nat, wl: seq<string>, done: seq<nat>, sentence: string) {
    && |done| <= count && Below(done, |wl|) && sentence == Sentence(WordsAt(done, wl))
    && Slices(binary, count) == Prepend(done, Slices(Rest(binary, |done|), count - |done|))
  }

  lemma Started(binary: seq<bit>, count: nat, wl: seq<string>)
    ensures Written(binary, count, wl, [], "")
  {
    RestOfAll(binary);
    PrependNothing(Slices(binary, count));
    assert Slices(Rest(binary, 0), count - 0) == Slices(binary, count);
    assert Sentence(WordsAt([], wl)) == "" by { assert WordsAt([], wl) == []; }
  }

  lemma RestOfAll(bits: seq<bit>)
    ensures Rest(bits, 0) == bits
  {}

  lemma PrependNothing(all: Option<seq<nat>>)
    ensures Prepend([], all) == all
  {
    if all.Some? { assert [] + all.value == all.value; }
  }

  lemma NoMoreSlices(binary: seq<bit>, count: nat, wl: seq<string>, done: seq<nat>, sentence: string)
    requires Written(binary, count, wl, done, sentence) && |done| < count && Slice(binary, |done|) == []
    ensures Slices(binary, count) == None
  {
    SlicesStep(binary, |done|, count, done);
  }

  lemma SliceWritten(binary: seq<bit>, count: nat, wl: seq<string>, done: seq<nat>, sentence: string)
    requires |wl| == 2048 && Written(binary, count, wl, done, sentence) && |done| < count && Slice(binary, |done|) != []
    ensures var v := Value(Slice(binary, |done|));
      v < 2048 && Written(binary, count, wl, done + [v], sentence + " " + wl[v])
  {
    SlicesStep(binary, |done|, count, done);
    AppendWord(done, Value(Slice(binary, |done|)), wl);
  }

  lemma AllWritten(binary: seq<bit>, count: nat, wl: seq<string>, done: seq<nat>, sentence: string)
    requires Written(binary, count, wl, done, sentence) && |done| == count
    ensures Slices(binary, count) == Some(done)
    ensures (if sentence == "" then "" else sentence[1..]) == JoinWith(WordsAt(done, wl), ' ')
  {
    assert done + [] == done;
    FinishSentence(done, wl);
  }

  lemma AppendWord(done: seq<nat>, v: nat, wl: seq<string>)
    requires v < |wl| && Below(done, |wl|)
    ensures Below(done + [v], |wl|)
    ensures Sentence(WordsAt(done + [v], wl)) == Sentence(WordsAt(done, wl)) + " " + wl[v]
  {
    SentenceSnoc(WordsAt(done, wl), wl[v]);
    assert WordsAt(done + [v], wl) == WordsAt(done, wl) + [wl[v]];
  }

  /** `sentence[1:]` is the words joined by spaces. */
  lemma FinishSentence(done: seq<nat>, wl: seq<string>)
    requires Below(done, |wl|)
    ensures var sentence := Sentence(WordsAt(done, wl));
      (if sentence == "" then "" else sentence[1..]) == JoinWith(WordsAt(done, wl), ' ')
  {
    SentenceJoin(WordsAt(done, wl));
    if done == [] { assert WordsAt(done, wl) == []; }
  }

  function Prepend(done: seq<nat>, rest: Option<seq<nat>>): Option<seq<nat>> {
    if rest.None? then None else Some(done + rest.value)
  }

  lemma SlicesStep(bits: seq<bit>, i: nat, count: nat, done: seq<nat>)
    requires i < count
    ensures Slice(bits, i) == [] ==> Slices(Rest(bits, i), count - i) == None
    ensures Slice(bits, i) != [] ==> Value(Slice(bits, i)) < 2048
    ensures Slice(bits, i) != [] ==>
      Prepend(done, Slices(Rest(bits, i), count - i))
        == Prepend(done + [Value(Slice(bits, i))], Slices(Rest(bits, i + 1), count - (i + 1)))
  {
    var piece := Slice(bits, i);
    NextSlice(bits, i);
    BitsOfValue(piece);
    Pow2Grows(|piece|, 11);
    Powers();
    var rest := Slices(Rest(bits, i + 1), count - (i + 1));
    assert rest.Some? ==> done + ([Value(piece)] + rest.value) == done + [Value(piece)] + rest.value;
  }

  lemma NextSlice(bits: seq<bit>, i: nat)
    ensures var rest, k := Rest(bits, i), Min(11, |Rest(bits, i)|);
      rest[..k] == Slice(bits, i) && rest[k..] == Rest(bits, i + 1)
  {}

  /** `mnemonic_to_key`. */
  method MnemonicToKey(mnemonic: string, wl: seq<string>, sha: seq<byte> -> HexDigest)
      returns (r: Result<seq<byte>, Failure>)
    requires forall i, j :: 0 <= i < j < |wl| ==> LexLe(wl[i], wl[j])
    ensures r == Decode(mnemonic, wl, sha)
  {
    var words := SplitOn(mnemonic, ' ');
    var indexes: seq<nat> := [];
    for i := 0 to |words|
      invariant indexes == Indexes(words, wl)[..i]
    {
      var w := WordIndex(words[i], wl);
      indexes := indexes + [w];
    }
    assert indexes == Indexes(words, wl);
    var total_length := |indexes| * 11;
    var strength := total_length * 32 / 33;
    assert strength == Strength(|indexes|);
    var binary := ToBin(indexes, 11);
    var key := Bytes(binary[..strength]);
    var valid := VerifyChecksum(key, binary[strength..], sha);
    r := if valid then Ok(key) else Err(FailedChecksumError);
  }

  /** `_verify_checksum`. */
  method VerifyChecksum(data: seq<byte>, checksum: seq<bit>, sha: seq<byte> -> HexDigest) returns (valid: bool)
    ensures valid <==> Checksum(sha(data), ChecksumLength(|data|)) == checksum
  {
    var bits := ToBin(sha(data), 8);
    valid := bits[..Min(ChecksumLength(|data|), |bits|)] == checksum;
  }

  // ---------------------------------------------------------------------------------------
  // Theorems
  // ---------------------------------------------------------------------------------------

  /** The bits left for the checksum, and the bits of it that can be recomputed from the bytes read:
      of 3q words q and at most q, of 3q+1 or 3q+2 words q+1 and at most q. */
  lemma ChecksumBits(idx: seq<nat>, sha: seq<byte> -> HexDigest)
    ensures var n, q, bits := |idx|, |idx| / 3, Packed(idx, 11);
      var strength := Strength(n);
      && |bits| == 11 * n && strength <= |bits|
      && |bits[strength..]| == (if n % 3 == 0 then q else q + 1)
      && var key := Bytes(bits[..strength]);
         |key| == 4 * q + (if n % 3 == 0 then 0 else n % 3 + 1) &&
         |Checksum(sha(key), ChecksumLength(|key|))| == Min(q, 512)
  {
    var n, q := |idx|, |idx| / 3;
    var bits, strength := Packed(idx, 11), Strength(n);
    PackedLength(idx, 11);
    if n % 3 == 0 {
      PackChunks(bits[..strength], 8, 4 * q);
    } else if n % 3 == 1 {
      ChunksCount(bits[..strength], 4 * q + 1, 2);
    } else {
      ChunksCount(bits[..strength], 4 * q + 2, 5);
    }
  }

  /** The lengths of an accepted mnemonic: a multiple of three words, at most 1536, four bytes of
      key to every three words. */
  lemma AcceptedShape(idx: seq<nat>, sha: seq<byte> -> HexDigest)
    requires DecodeIndexes(idx, sha).Ok?
    ensures |idx| % 3 == 0 && |idx| <= 1536
    ensures |DecodeIndexes(idx, sha).value| == 4 * (|idx| / 3)
  {
    ChecksumBits(idx, sha);
  }

  lemma SlicesAreChunks(bits: seq<bit>, n: nat)
    requires |bits| == 11 * n
    ensures Slices(bits, n) == Some(Chunks(bits, 11))
  {
    if n > 0 {
      SlicesAreChunks(bits[11..], n - 1);
      assert Slices(bits, n) == Some([Value(bits[..11])] + Chunks(bits[11..], 11));
      if n == 1 {
        assert bits[..11] == bits && bits[11..] == [];
        assert Chunks(bits, 11) == [Value(bits)] + [];
      }
    }
  }

  /** Decoding the words of a key, when it is a whole number of 32-bit groups the checksum covers. */
  lemma DecodeEncoded(key: seq<byte>, wl: seq<string>, sha: seq<byte> -> HexDigest)
    requires WordList(wl)
    requires |key| % 4 == 0 && 4 <= |key| <= 2048
    ensures Encode(key, wl, sha).Ok?
    ensures Decode(Encode(key, wl, sha).value, wl, sha) == Ok(key)
  {
    var m := |key| / 4;
    var bits := KeyBits(key, sha);
    PackedLength(key, 8);
    assert |bits| == 33 * m == 11 * (3 * m);
    SlicesAreChunks(bits, 3 * m);
    PackChunks(bits, 11, 3 * m);
    var idx := Chunks(bits, 11);
    assert Slices(bits, 3 * m) == Some(idx);
    assert WordCount(|key|) == 3 * m;
    var words := WordsAt(idx, wl);
    WordsFoundAgain(idx, wl);
    SplitJoin(words, ' ');
    assert Indexes(words, wl) == idx;
    DecodeBits(idx, key, sha);
  }

  lemma WordsFoundAgain(idx: seq<nat>, wl: seq<string>)
    requires WordList(wl) && Below(idx, 2048)
    ensures Indexes(WordsAt(idx, wl), wl) == idx
    ensures forall w :: w in WordsAt(idx, wl) ==> ' ' !in w
  {
    var words := WordsAt(idx, wl);
    forall i | 0 <= i < |idx| ensures LowerBound(words[i], wl) == idx[i] {
      ListedWordIndex(words[i], wl);
    }
  }

  lemma DecodeBits(idx: seq<nat>, key: seq<byte>, sha: seq<byte> -> HexDigest)
    requires |key| % 4 == 0 && |key| <= 2048 && |idx| == 3 * (|key| / 4)
    requires Packed(idx, 11) == KeyBits(key, sha)
    ensures DecodeIndexes(idx, sha) == Ok(key)
  {
    var bits, strength := Packed(idx, 11), Strength(|idx|);
    PackedLength(key, 8);
    assert strength == 8 * |key|;
    assert bits[..strength] == Packed(key, 8);
    Powers();
    ChunksPack(key, 8);
    assert bits[strength..] == Checksum(sha(key), ChecksumLength(|key|));
  }

  /** Writing a key as words and reading the words gives the key back exactly for keys of 4 to
      2048 bytes in whole groups of four. */
  lemma RoundTrip(key: seq<byte>, wl: seq<string>, sha: seq<byte> -> HexDigest)
    requires WordList(wl)
    ensures (Encode(key, wl, sha).Ok? && Decode(Encode(key, wl, sha).value, wl, sha) == Ok(key))
       <==> (|key| % 4 == 0 && 4 <= |key| <= 2048)
  {
    var r := Encode(key, wl, sha);
    if |key| % 4 == 0 && 4 <= |key| <= 2048 {
      DecodeEncoded(key, wl, sha);
    } else if r.Ok? && Decode(r.value, wl, sha) == Ok(key) {
      KeyLengthOfAccepted(r.value, key, wl, sha);
    }
  }

  lemma KeyLengthOfAccepted(mnemonic: string, key: seq<byte>, wl: seq<string>, sha: seq<byte> -> HexDigest)
    requires Decode(mnemonic, wl, sha) == Ok(key)
    ensures |key| % 4 == 0 && 4 <= |key| <= 2048
  {
    AcceptedMnemonic(mnemonic, wl, sha);
  }

  /** An accepted mnemonic has a multiple of three words, at most 1536, and its key is encodable. */
  lemma AcceptedMnemonic(mnemonic: string, wl: seq<string>, sha: seq<byte> -> HexDigest)
    requires Decode(mnemonic, wl, sha).Ok?
    ensures |SplitOn(mnemonic, ' ')| % 3 == 0 && 3 <= |SplitOn(mnemonic, ' ')| <= 1536
    ensures |Decode(mnemonic, wl, sha).value| == 4 * (|SplitOn(mnemonic, ' ')| / 3)
  {
    AcceptedShape(Indexes(SplitOn(mnemonic, ' '), wl), sha);
  }

  /** A mnemonic whose word count is no multiple of three is always refused. */
  lemma WrongWordCount(mnemonic: string, wl: seq<string>, sha: seq<byte> -> HexDigest)
    requires |SplitOn(mnemonic, ' ')| % 3 != 0
    ensures Decode(mnemonic, wl, sha) == Err(FailedChecksumError)
  {
    ChecksumBits(Indexes(SplitOn(mnemonic, ' '), wl), sha);
  }

  /** What decoding accepts, bit by bit: key is the answer exactly when the mnemonic has 3q words, q at
      most 512, the first 32q bits of the words' numbers are the key's, and the other q are the first
      bits of the digest of the key. */
  lemma DecodesTo(mnemonic: string, key: seq<byte>, wl: seq<string>, sha: seq<byte> -> HexDigest)
    ensures var words := SplitOn(mnemonic, ' ');
      var q, bits := |words| / 3, Packed(Indexes(words, wl), 11);
      Decode(mnemonic, wl, sha) == Ok(key) <==>
        |bits| == 33 * q && q <= 512 && |key| == 4 * q && BitsFit(bits, q, key, sha)
  {
    var idx := Indexes(SplitOn(mnemonic, ' '), wl);
    PackedLength(idx, 11);
    NumbersDecodeTo(idx, key, sha);
  }

  lemma NumbersDecodeTo(idx: seq<nat>, key: seq<byte>, sha: seq<byte> -> HexDigest)
    ensures var q, bits := |idx| / 3, Packed(idx, 11);
      DecodeIndexes(idx, sha) == Ok(key) <==>
        |bits| == 33 * q && q <= 512 && |key| == 4 * q && BitsFit(bits, q, key, sha)
  {
    var q := |idx| / 3;
    PackedLength(idx, 11);
    if |idx| == 3 * q && q <= 512 && |key| == 4 * q {
      DecodedKey(idx, q, key, sha);
      SplitBitsFit(Packed(idx, 11), q, key, sha);
    } else {
      NotDecoded(idx, key, sha);
    }
  }

  lemma NotDecoded(idx: seq<nat>, key: seq<byte>, sha: seq<byte> -> HexDigest)
    requires var q := |idx| / 3; !(|idx| == 3 * q && q <= 512 && |key| == 4 * q)
    ensures DecodeIndexes(idx, sha) != Ok(key)
  {
    if DecodeIndexes(idx, sha).Ok? { AcceptedShape(idx, sha); }
  }

  /** The first 32q bits are the key's, each by division, and the other q are the first ones of its digest. */
  ghost predicate BitsFit(bits: seq<bit>, q: nat, key: seq<byte>, sha: seq<byte> -> HexDigest)
    requires |bits| == 33 * q && q <= 512 && |key| == 4 * q
  {
    && (forall i :: 0 <= i < 32 * q ==> bits[i] == (key[i / 8] / Pow2(7 - i % 8)) % 2)
    && (forall i :: 0 <= i < q ==> bits[32 * q + i] == (sha(key)[i / 8] / Pow2(7 - i % 8)) % 2)
  }

  lemma SplitBitsFit(bits: seq<bit>, q: nat, key: seq<byte>, sha: seq<byte> -> HexDigest)
    requires |bits| == 33 * q && q <= 512 && |key| == 4 * q
    ensures BitsFit(bits, q, key, sha) <==> bits[..32 * q] == Packed(key, 8) && bits[32 * q..] == Checksum(sha(key), q)
  {
    KeyBitsMatch(bits[..32 * q], key);
    CheckBitsMatch(bits[32 * q..], q, sha(key));
    assert forall i :: 0 <= i < 32 * q ==> bits[..32 * q][i] == bits[i];
    assert forall i :: 0 <= i < q ==> bits[32 * q..][i] == bits[32 * q + i];
  }

  lemma KeyBitsMatch(bits: seq<bit>, key: seq<byte>)
    requires |bits| == 8 * |key|
    ensures bits == Packed(key, 8) <==> forall i :: 0 <= i < |bits| ==> bits[i] == (key[i / 8] / Pow2(7 - i % 8)) % 2
  {
    PackedLength(key, 8);
    forall i | 0 <= i < |bits| ensures Packed(key, 8)[i] == (key[i / 8] / Pow2(7 - i % 8)) % 2 {
      ByteBit(key, i);
    }
  }

  lemma CheckBitsMatch(bits: seq<bit>, q: nat, digest: HexDigest)
    requires |bits| == q <= 512
    ensures bits == Checksum(digest, q) <==> forall i :: 0 <= i < q ==> bits[i] == (digest[i / 8] / Pow2(7 - i % 8)) % 2
  {
    forall i | 0 <= i < q ensures Checksum(digest, q)[i] == (digest[i / 8] / Pow2(7 - i % 8)) % 2 {
      ByteBit(digest, i);
    }
  }

  lemma DecodedKey(idx: seq<nat>, q: nat, key: seq<byte>, sha: seq<byte> -> HexDigest)
    requires |idx| == 3 * q && q <= 512 && |key| == 4 * q
    ensures |Packed(idx, 11)| == 33 * q
    ensures DecodeIndexes(idx, sha) == Ok(key) <==>
      Packed(idx, 11)[..32 * q] == Packed(key, 8) && Packed(idx, 11)[32 * q..] == Checksum(sha(key), q)
  {
    PackedLength(idx, 11);
    DecodeWhole(idx, q, sha);
    Powers();
    ChunksPack(key, 8);
  }

  /** Decoding 3q words: the key is cut from the first 32q bits, the others are compared. */
  lemma DecodeWhole(idx: seq<nat>, q: nat, sha: seq<byte> -> HexDigest)
    requires |idx| == 3 * q
    ensures |Packed(idx, 11)| == 33 * q
    ensures var bits := Packed(idx, 11);
      var key := Bytes(bits[..32 * q]);
      |key| == 4 * q && Packed(key, 8) == bits[..32 * q] &&
      DecodeIndexes(idx, sha)
        == if Checksum(sha(key), q) == bits[32 * q..] then Ok(key) else Err(FailedChecksumError)
  {
    var bits := Packed(idx, 11);
    PackedLength(idx, 11);
    PackChunks(bits[..32 * q], 8, 4 * q);
    assert Strength(|idx|) == 32 * q && ChecksumLength(4 * q) == q;
  }

  /** What is written for a key of 2 to 2048 bytes: the words whose numbers, joined, are the first 11c
      bits of the key and the digest's first bits, for the number c of whole words these fill. */
  lemma EncodesTo(key: seq<byte>, wl: seq<string>, sha: seq<byte> -> HexDigest)
    requires WordList(wl) && 2 <= |key| <= 2048
    ensures Encode(key, wl, sha).Ok?
    ensures var n, c := 8 * |key|, (8 * |key| + |key| / 4) / 11;
      var bits := Packed(Indexes(SplitOn(Encode(key, wl, sha).value, ' '), wl), 11);
      |bits| == 11 * c && forall i :: 0 <= i < 11 * c ==>
        bits[i] == (if i < n then key[i / 8] / Pow2(7 - i % 8) else sha(key)[(i - n) / 8] / Pow2(7 - (i - n) % 8)) % 2
  {
    var c := WordCount(|key|);
    WrittenNumbers(key, wl, sha);
    forall i | 0 <= i < 11 * c
      ensures KeyBits(key, sha)[i] ==
        (if i < 8 * |key| then key[i / 8] / Pow2(7 - i % 8)
         else sha(key)[(i - 8 * |key|) / 8] / Pow2(7 - (i - 8 * |key|) % 8)) % 2
    {
      KeyBitAt(key, sha, i);
    }
  }

  lemma KeyBitAt(key: seq<byte>, sha: seq<byte> -> HexDigest, i: nat)
    requires |key| <= 2048 && i < 8 * |key| + |key| / 4
    ensures var n := 8 * |key|;
      |KeyBits(key, sha)| == n + |key| / 4 && KeyBits(key, sha)[i] ==
        (if i < n then key[i / 8] / Pow2(7 - i % 8) else sha(key)[(i - n) / 8] / Pow2(7 - (i - n) % 8)) % 2
  {
    PackedLength(key, 8);
    if i < 8 * |key| { ByteBit(key, i); } else { ByteBit(sha(key), i - 8 * |key|); }
  }

  lemma WrittenNumbers(key: seq<byte>, wl: seq<string>, sha: seq<byte> -> HexDigest)
    requires WordList(wl) && 2 <= |key| <= 2048
    ensures Encode(key, wl, sha).Ok? && 11 * WordCount(|key|) <= |KeyBits(key, sha)|
    ensures Packed(Indexes(SplitOn(Encode(key, wl, sha).value, ' '), wl), 11)
         == KeyBits(key, sha)[..11 * WordCount(|key|)]
  {
    var c, all := WordCount(|key|), KeyBits(key, sha);
    PackedLength(key, 8);
    SlicesOfWhole(all, c);
    PackChunks(all[..11 * c], 11, c);
    var idx := Chunks(all[..11 * c], 11);
    WordsFoundAgain(idx, wl);
    SplitJoin(WordsAt(idx, wl), ' ');
  }

  /** Slices that the bits fill are their pieces. */
  lemma {:induction false} SlicesOfWhole(bits: seq<bit>, c: nat)
    requires 11 * c <= |bits|
    ensures Slices(bits, c) == Some(Chunks(bits[..11 * c], 11))
  {
    if c > 0 {
      SlicesOfWhole(bits[11..], c - 1);
      assert bits[..11 * c][11..] == bits[11..][..11 * (c - 1)];
      assert bits[..11 * c][..11] == bits[..11];
      if c == 1 { assert Chunks(bits[..11], 11) == [Value(bits[..11])] + []; }
    }
  }

  /** No sentence comes of a key so long that the digest does not fill all its slices. */
  lemma TooLong(key: seq<byte>, wl: seq<string>, sha: seq<byte> -> HexDigest)
    requires |wl| == 2048
    ensures var n, c := 8 * |key|, (8 * |key| + |key| / 4) / 11;
      Encode(key, wl, sha) == Err(ValueError) <==> c > 0 && 11 * (c - 1) >= n + Min(|key| / 4, 512)
  {
    PackedLength(key, 8);
    SlicesFail(KeyBits(key, sha), WordCount(|key|));
  }

  lemma {:induction false} SlicesFail(bits: seq<bit>, c: nat)
    ensures Slices(bits, c) == None <==> c > 0 && 11 * (c - 1) >= |bits|
  {
    if c > 0 && bits != [] { SlicesFail(bits[Min(11, |bits|)..], c - 1); }
  }

  /** An accepted mnemonic is the one its key is written as exactly when all its words are listed. */
  lemma Canonical(mnemonic: string, wl: seq<string>, sha: seq<byte> -> HexDigest)
    requires WordList(wl)
    requires Decode(mnemonic, wl, sha).Ok?
    ensures Encode(Decode(mnemonic, wl, sha).value, wl, sha) == Ok(mnemonic)
       <==> forall w :: w in SplitOn(mnemonic, ' ') ==> w in wl
  {
    var words := SplitOn(mnemonic, ' ');
    var idx, key := Indexes(words, wl), Decode(mnemonic, wl, sha).value;
    if forall w :: w in words ==> w in wl {
      AcceptedBits(idx, sha);
      ListedWordsAgain(words, wl);
      EncodeFrom(key, idx, mnemonic, wl, sha);
    }
    if Encode(key, wl, sha) == Ok(mnemonic) {
      KeyLengthOfAccepted(mnemonic, key, wl, sha);
      EncodedIsListed(key, mnemonic, wl, sha);
    }
  }

  /** Only listed words are written. */
  lemma EncodedIsListed(key: seq<byte>, mnemonic: string, wl: seq<string>, sha: seq<byte> -> HexDigest)
    requires WordList(wl) && |key| >= 4 && Encode(key, wl, sha) == Ok(mnemonic)
    ensures forall w :: w in SplitOn(mnemonic, ' ') ==> w in wl
  {
    var idx := Slices(KeyBits(key, sha), WordCount(|key|)).value;
    WordsFoundAgain(idx, wl);
    SplitJoin(WordsAt(idx, wl), ' ');
  }

  lemma EncodeFrom(key: seq<byte>, idx: seq<nat>, mnemonic: string, wl: seq<string>, sha: seq<byte> -> HexDigest)
    requires |wl| == 2048 && Below(idx, 2048)
    requires Slices(KeyBits(key, sha), WordCount(|key|)) == Some(idx)
    requires WordsAt(idx, wl) == SplitOn(mnemonic, ' ')
    ensures Encode(key, wl, sha) == Ok(mnemonic)
  {
    JoinSplit(mnemonic, ' ');
  }

  lemma ListedWordsAgain(words: seq<string>, wl: seq<string>)
    requires WordList(wl)
    requires forall w :: w in words ==> w in wl
    ensures WordsAt(Indexes(words, wl), wl) == words
  {
    var idx := Indexes(words, wl);
    forall i | 0 <= i < |idx| ensures wl[idx[i]] == words[i] {
      assert words[i] in words;
      ListedWordIndex(words[i], wl);
    }
  }

  /** The bits of an accepted mnemonic are the bits its key is written from. */
  lemma AcceptedBits(idx: seq<nat>, sha: seq<byte> -> HexDigest)
    requires DecodeIndexes(idx, sha).Ok?
    requires Below(idx, 2048)
    ensures var key := DecodeIndexes(idx, sha).value;
      Slices(KeyBits(key, sha), WordCount(|key|)) == Some(idx)
  {
    var bits, key := Packed(idx, 11), DecodeIndexes(idx, sha).value;
    AcceptedKeyBits(idx, sha);
    AcceptedShape(idx, sha);
    PackedLength(idx, 11);
    assert WordCount(|key|) == |idx|;
    SlicesAreChunks(bits, |idx|);
    Powers();
    ChunksPack(idx, 11);
  }

  lemma AcceptedKeyBits(idx: seq<nat>, sha: seq<byte> -> HexDigest)
    requires DecodeIndexes(idx, sha).Ok?
    ensures KeyBits(DecodeIndexes(idx, sha).value, sha) == Packed(idx, 11)
  {
    var bits, key := Packed(idx, 11), DecodeIndexes(idx, sha).value;
    AcceptedShape(idx, sha);
    PackedLength(idx, 11);
    var strength := Strength(|idx|);
    PackChunks(bits[..strength], 8, 4 * (|idx| / 3));
    KeyBitsFrom(bits, strength, key, sha);
  }

  lemma KeyBitsFrom(bits: seq<bit>, strength: nat, key: seq<byte>, sha: seq<byte> -> HexDigest)
    requires strength <= |bits| && Packed(key, 8) == bits[..strength]
    requires Checksum(sha(key), ChecksumLength(|key|)) == bits[strength..]
    ensures KeyBits(key, sha) == bits
  {}

  /** A word is read as the least listed word not below it (the last word when there is none), so
      replacing every word by the one it is read as changes nothing. */
  lemma ReadAsLowerBound(mnemonic: string, wl: seq<string>, sha: seq<byte> -> HexDigest)
    requires WordList(wl)
    ensures var words := SplitOn(mnemonic, ' ');
      Decode(JoinWith(WordsAt(Indexes(words, wl), wl), ' '), wl, sha) == Decode(mnemonic, wl, sha)
  {
    var words := SplitOn(mnemonic, ' ');
    var idx := Indexes(words, wl);
    WordsFoundAgain(idx, wl);
    SplitJoin(WordsAt(idx, wl), ' ');
  }
}
