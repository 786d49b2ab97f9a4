/**
 The file-based embedding cache (`src/embedding/cache.rs`).

 A cache directory is a map from digests to file contents. The digest of a text, whether a file can
 be read and whether a write succeeds are parameters.
 */
module EmbeddingCache {
  import opened Numbers
  import opened Options
  import opened Sequences
  import opened Utf8

  type Byte = n: nat | n < 256
  /** The bits of one `f32`. */
  type Bits = n: nat | n < 0x1_0000_0000

  datatype Text = Text(text: string)
  datatype Digest = Digest(hex: string)

  // ---------------------------------------------------------------------------------------
  // The byte codec
  // ---------------------------------------------------------------------------------------

  function Pow256(n: nat): (p: nat)
    ensures p > 0
  {
    if n == 0 then 1 else 256 * Pow256(n - 1)
  }

  /** The `n` low bytes of `w`, lowest first. */
  function ToLe(w: nat, n: nat): (bytes: seq<Byte>)
    ensures |bytes| == n
  {
    if n == 0 then [] else [w % 256] + ToLe(w / 256, n - 1)
  }

  function FromLe(bytes: seq<Byte>): (w: nat)
    ensures w < Pow256(|bytes|)
  {
    if bytes == [] then 0 else bytes[0] + 256 * FromLe(bytes[1..])
  }

  /** The byte at place `i` weighs 256 to the `i`: the lowest comes first. */
  lemma {:induction false} ByteAtPlace(w: nat, n: nat, i: nat)
    requires i < n
    ensures ToLe(w, n)[i] == w / Pow256(i) % 256
  {
    if i > 0 {
      ByteAtPlace(w / 256, n - 1, i - 1);
      DivideTwice(w, Pow256(i - 1));
    }
  }

  lemma DivideTwice(w: nat, p: nat)
    requires p > 0
    ensures w / 256 / p == w / (256 * p)
  {
    var q, r := w / (256 * p), w % (256 * p);
    assert w == 256 * (p * q) + r;
    var high, low := r / 256, r % 256;
    assert w == 256 * (p * q + high) + low;
    assert w / 256 == p * q + high;
    assert high < p;
    assert p * q + high == q * p + high;
    Remainder(w / 256, p, q, high);
  }

  /** Which bytes a file holds: of number `k` the byte of weight 256 to the `i` at `4 * k + i`. */
  lemma {:induction false} EncodedBytes(v: seq<Bits>, k: nat, i: nat)
    requires k < |v| && i < 4
    ensures Encode(v)[4 * k + i] == v[k] / Pow256(i) % 256
  {
    if k == |v| - 1 {
      ByteAtPlace(v[k], 4, i);
    } else {
      EncodedBytes(v[..|v| - 1], k, i);
    }
  }

  function LowestFirst(a: nat, b: nat, c: nat, d: nat): nat {
    a + 0x100 * b + 0x1_0000 * c + 0x100_0000 * d
  }

  lemma FourBytesOf(bytes: seq<Byte>)
    requires |bytes| == 4
    ensures FromLe(bytes) == LowestFirst(bytes[0], bytes[1], bytes[2], bytes[3])
  {
    var b1, b2, b3 := bytes[1..], bytes[2..], bytes[3..];
    assert b1[1..] == b2 && b2[1..] == b3 && b3[1..] == [];
    assert FromLe(b3) == bytes[3];
    assert FromLe(b2) == bytes[2] + 256 * FromLe(b3);
    assert FromLe(b1) == bytes[1] + 256 * FromLe(b2);
  }

  /** Which numbers a file is read as. */
  lemma {:induction false} DecodedWords(bytes: seq<Byte>, k: nat)
    requires |bytes| % 4 == 0 && 4 * k < |bytes|
    ensures 4 * k + 3 < |bytes| && k < |Words(bytes)|
    ensures Words(bytes)[k] == LowestFirst(bytes[4 * k], bytes[4 * k + 1], bytes[4 * k + 2], bytes[4 * k + 3])
  {
    var n := |bytes| - 4;
    if 4 * k == n {
      FourBytesOf(bytes[n..]);
    } else {
      DecodedWords(bytes[..n], k);
    }
  }

  lemma {:induction false} FromUndoesTo(w: nat, n: nat)
    requires w < Pow256(n)
    ensures FromLe(ToLe(w, n)) == w
  {
    if n > 0 {
      FromUndoesTo(w / 256, n - 1);
      assert ToLe(w, n)[1..] == ToLe(w / 256, n - 1);
    }
  }

  lemma {:induction false} ToUndoesFrom(bytes: seq<Byte>)
    ensures ToLe(FromLe(bytes), |bytes|) == bytes
  {
    if bytes != [] {
      ToUndoesFrom(bytes[1..]);
      FirstAndRest(bytes);
    }
  }

  lemma FourBytes()
    ensures Pow256(4) == 0x1_0000_0000
  {
  }

  function Encode(v: seq<Bits>): (bytes: seq<Byte>)
    ensures |bytes| == 4 * |v| && |bytes| % 4 == 0
  {
    if v == [] then [] else Encode(v[..|v| - 1]) + ToLe(v[|v| - 1], 4)
  }

  function Words(bytes: seq<Byte>): (v: seq<Bits>)
    requires |bytes| % 4 == 0
    ensures 4 * |v| == |bytes|
  {
    if bytes == [] then []
    else
      var k := |bytes| - 4;
      FourBytes();
      Words(bytes[..k]) + [FromLe(bytes[k..])]
  }

  function Decode(bytes: seq<Byte>): Option<seq<Bits>> {
    if bytes == [] || |bytes| % 4 != 0 then None else Some(Words(bytes))
  }

  lemma SplitAppend<T>(s: seq<T>, t: seq<T>)
    ensures (s + t)[..|s|] == s && (s + t)[|s|..] == t
  {
  }

  lemma WordsPush(bytes: seq<Byte>, w: Bits)
    requires |bytes| % 4 == 0
    ensures Words(bytes + ToLe(w, 4)) == Words(bytes) + [w]
  {
    SplitAppend(bytes, ToLe(w, 4));
    FourBytes();
    FromUndoesTo(w, 4);
  }

  lemma LastJoins<T>(s: seq<T>)
    requires s != []
    ensures s == s[..|s| - 1] + [s[|s| - 1]]
  {
  }

  lemma {:induction false} WordsOfEncoded(v: seq<Bits>)
    ensures Words(Encode(v)) == v
  {
    if v != [] {
      var k := |v| - 1;
      var front := v[..k];
      WordsOfEncoded(front);
      WordsPush(Encode(front), v[k]);
      LastJoins(v);
    }
  }

  /** Every non-empty vector survives the file, bit for bit. */
  lemma DecodeUndoesEncode(v: seq<Bits>)
    ensures Decode(Encode(v)) == if v == [] then None else Some(v)
  {
    WordsOfEncoded(v);
  }

  /** Every non-empty file of whole words is the encoding of what it decodes to; no other file decodes. */
  lemma {:induction false} EncodeUndoesDecode(bytes: seq<Byte>)
    ensures Decode(bytes).Some? <==> bytes != [] && |bytes| % 4 == 0
    ensures |bytes| % 4 == 0 ==> Encode(Words(bytes)) == bytes
  {
    if bytes != [] && |bytes| % 4 == 0 {
      var k := |bytes| - 4;
      FourBytes();
      EncodeUndoesDecode(bytes[..k]);
      ToUndoesFrom(bytes[k..]);
      Pushed(Words(bytes[..k]), FromLe(bytes[k..]));
      assert bytes[..k] + bytes[k..] == bytes;
    }
  }

  method EncodeEmbedding(embedding: seq<Bits>) returns (buf: seq<Byte>)
    ensures buf == Encode(embedding)
  {
    buf := [];
    for i := 0 to |embedding|
      invariant buf == Encode(embedding[..i])
    {
      assert embedding[..i + 1][..i] == embedding[..i];
      buf := buf + ToLe(embedding[i], 4);
    }
    assert embedding[..|embedding|] == embedding;
  }

  // ---------------------------------------------------------------------------------------
  // Looking up and writing
  // ---------------------------------------------------------------------------------------

  /** What a digest's file answers. */
  function Lookup(disk: map<Digest, seq<Byte>>, d: Digest): Option<seq<Bits>> {
    if d in disk then Decode(disk[d]) else None
  }

  datatype Hit = Hit(index: nat, embedding: seq<Bits>)

  /** What each text gets. */
  function Answers(disk: map<Digest, seq<Byte>>, digest: Text -> Digest, texts: seq<Text>, readable: nat -> bool)
    : (answers: seq<Option<seq<Bits>>>)
    ensures |answers| == |texts|
  {
    seq(|texts|, i requires 0 <= i < |texts| => if readable(i) then Lookup(disk, digest(texts[i])) else None)
  }

  function HitsOf(answers: seq<Option<seq<Bits>>>): seq<Hit> {
    if answers == [] then []
    else
      var k := |answers| - 1;
      match answers[k]
      case Some(e) => HitsOf(answers[..k]) + [Hit(k, e)]
      case None => HitsOf(answers[..k])
  }

  function MissesOf(answers: seq<Option<seq<Bits>>>): seq<nat> {
    if answers == [] then []
    else
      var k := |answers| - 1;
      if answers[k].Some? then MissesOf(answers[..k]) else MissesOf(answers[..k]) + [k]
  }

  /** Index `i` is a miss, once, exactly when it gets no answer. */
  lemma {:induction false} MissesAreExact(answers: seq<Option<seq<Bits>>>, i: nat)
    ensures multiset(MissesOf(answers))[i] == if i < |answers| && answers[i].None? then 1 else 0
  {
    if answers != [] {
      var k := |answers| - 1;
      MissesAreExact(answers[..k], i);
      CountPushed(MissesOf(answers[..k]), k, i);
    }
  }

  /** Index `i` is a hit, once and with the decoded file, exactly when it gets that answer. */
  lemma {:induction false} HitsAreExact(answers: seq<Option<seq<Bits>>>, h: Hit)
    ensures multiset(HitsOf(answers))[h]
            == if h.index < |answers| && answers[h.index] == Some(h.embedding) then 1 else 0
  {
    if answers != [] {
      var k := |answers| - 1;
      HitsAreExact(answers[..k], h);
      if answers[k].Some? { CountPushed(HitsOf(answers[..k]), Hit(k, answers[k].value), h); }
    }
  }

  /** Both lists go through the texts in order. */
  lemma {:induction false} InOrderOfTexts(answers: seq<Option<seq<Bits>>>)
    ensures forall k :: 0 <= k < |HitsOf(answers)| ==> HitsOf(answers)[k].index < |answers|
    ensures forall k :: 0 <= k < |MissesOf(answers)| ==> MissesOf(answers)[k] < |answers|
    ensures forall j, k :: 0 <= j < k < |HitsOf(answers)| ==> HitsOf(answers)[j].index < HitsOf(answers)[k].index
    ensures forall j, k :: 0 <= j < k < |MissesOf(answers)| ==> MissesOf(answers)[j] < MissesOf(answers)[k]
  {
    if answers != [] { InOrderOfTexts(answers[..|answers| - 1]); }
  }

  /** Deleting a file that does not decode changes no answer. */
  lemma CorruptFileAnswersNothing(disk: map<Digest, seq<Byte>>, d: Digest, other: Digest)
    requires Lookup(disk, d).None?
    ensures Lookup(disk - {d}, other) == Lookup(disk, other)
  {
  }

  /** The file of pair `i` is written. */
  predicate Writes(embeddings: seq<seq<Bits>>, ok: nat -> bool, i: nat)
    requires i < |embeddings|
  {
    embeddings[i] != [] && ok(i)
  }

  /** The last of the first `n` pairs that writes the file `d`. */
  function LastWrite(digest: Text -> Digest, texts: seq<Text>, embeddings: seq<seq<Bits>>, ok: nat -> bool, n: nat,
                     d: Digest): (last: Option<nat>)
    requires n <= |texts| && n <= |embeddings|
    ensures last.Some? ==> last.value < n && Writes(embeddings, ok, last.value) && digest(texts[last.value]) == d
    ensures forall i :: 0 <= i < n && (last.Some? ==> last.value < i) && Writes(embeddings, ok, i) ==>
              digest(texts[i]) != d
  {
    if n == 0 then None
    else if Writes(embeddings, ok, n - 1) && digest(texts[n - 1]) == d then Some(n - 1)
    else LastWrite(digest, texts, embeddings, ok, n - 1, d)
  }

  predicate SameFile(disk: map<Digest, seq<Byte>>, before: map<Digest, seq<Byte>>, d: Digest) {
    if d in before then d in disk && disk[d] == before[d] else d !in disk
  }

  class Cache {
    var disk: map<Digest, seq<Byte>>
    const digest: Text -> Digest

    constructor (digest: Text -> Digest, disk: map<Digest, seq<Byte>>)
      ensures this.digest == digest && this.disk == disk
    {
      this.digest, this.disk := digest, disk;
    }

    method GetMany(texts: seq<Text>, readable: nat -> bool) returns (hits: seq<Hit>, misses: seq<nat>)
      modifies this
      ensures hits == HitsOf(Answers(old(disk), digest, texts, readable))
      ensures misses == MissesOf(Answers(old(disk), digest, texts, readable))
      ensures forall d :: Lookup(disk, d) == Lookup(old(disk), d)
      ensures forall d :: d in disk ==> d in old(disk) && disk[d] == old(disk)[d]
      ensures forall i :: 0 <= i < |texts| && readable(i) && digest(texts[i]) in disk ==>
                Decode(disk[digest(texts[i])]).Some?
    {
      hits, misses := [], [];
      ghost var answers := Answers(disk, digest, texts, readable);
      for idx := 0 to |texts|
        invariant hits == HitsOf(answers[..idx])
        invariant misses == MissesOf(answers[..idx])
        invariant forall d :: Lookup(disk, d) == Lookup(old(disk), d)
        invariant forall d :: d in disk ==> d in old(disk) && disk[d] == old(disk)[d]
        invariant forall i :: 0 <= i < idx && readable(i) && digest(texts[i]) in disk ==>
                    Decode(disk[digest(texts[i])]).Some?
      {
        assert answers[..idx + 1][..idx] == answers[..idx];
        var d := digest(texts[idx]);
        if !readable(idx) || d !in disk {
          misses := misses + [idx];
        } else {
          match Decode(disk[d]) {
            case Some(embedding) => hits := hits + [Hit(idx, embedding)];
            case None =>
              ghost var before := disk;
              disk := disk - {d};
              forall other ensures Lookup(disk, other) == Lookup(before, other) {
                CorruptFileAnswersNothing(before, d, other);
              }
              misses := misses + [idx];
          }
        }
      }
      assert answers[..|texts|] == answers;
    }

    /** Pairs beyond the shorter list are ignored; a failed write leaves the old file. */
    method PutMany(texts: seq<Text>, embeddings: seq<seq<Bits>>, ok: nat -> bool)
      modifies this
      ensures var n := if |texts| <= |embeddings| then |texts| else |embeddings|;
              forall d ::
                match LastWrite(digest, texts, embeddings, ok, n, d)
                case Some(i) => d in disk && disk[d] == Encode(embeddings[i]) && Lookup(disk, d) == Some(embeddings[i])
                case None => SameFile(disk, old(disk), d)
    {
      var n := if |texts| <= |embeddings| then |texts| else |embeddings|;
      for i := 0 to n
        invariant forall d ::
                match LastWrite(digest, texts, embeddings, ok, i, d)
                case Some(j) => d in disk && disk[d] == Encode(embeddings[j]) && Lookup(disk, d) == Some(embeddings[j])
                case None => SameFile(disk, old(disk), d)
      {
        if embeddings[i] == [] {
          continue;
        }
        var bytes := EncodeEmbedding(embeddings[i]);
        if ok(i) {
          DecodeUndoesEncode(embeddings[i]);
          disk := disk[digest(texts[i]) := bytes];
        }
      }
    }
  }

  // ---------------------------------------------------------------------------------------
  // What a lookup says after a write
  // ---------------------------------------------------------------------------------------

  /** With an injective digest, the last write of a file is the last write of its text. */
  lemma LastWriteIsOfTheText(digest: Text -> Digest, texts: seq<Text>, embeddings: seq<seq<Bits>>, ok: nat -> bool,
                             n: nat, i: nat)
    requires n <= |texts| && n <= |embeddings| && i < n && Writes(embeddings, ok, i)
    requires forall a, b :: digest(a) == digest(b) ==> a == b
    ensures var last := LastWrite(digest, texts, embeddings, ok, n, digest(texts[i]));
            && last.Some? && i <= last.value < n && texts[last.value] == texts[i]
            && Writes(embeddings, ok, last.value)
            && forall j :: last.value < j < n && texts[j] == texts[i] ==> !Writes(embeddings, ok, j)
  {
    var last := LastWrite(digest, texts, embeddings, ok, n, digest(texts[i]));
    forall j | 0 <= j < n && (last.Some? ==> last.value < j) && Writes(embeddings, ok, j)
      ensures texts[j] != texts[i] {}
  }

  /** Writing and then asking: every text that was written hits, with its last embedding. */
  method WriteThenRead(cache: Cache, texts: seq<Text>, embeddings: seq<seq<Bits>>, ok: nat -> bool)
    returns (hits: seq<Hit>, misses: seq<nat>)
    requires |texts| <= |embeddings|
    requires forall a, b :: cache.digest(a) == cache.digest(b) ==> a == b
    modifies cache
    ensures forall i :: 0 <= i < |texts| && Writes(embeddings, ok, i) ==>
              var last := LastWrite(cache.digest, texts, embeddings, ok, |texts|, cache.digest(texts[i]));
              last.Some? && texts[last.value] == texts[i] && Hit(i, embeddings[last.value]) in hits && i !in misses
  {
    cache.PutMany(texts, embeddings, ok);
    ghost var answers := Answers(cache.disk, cache.digest, texts, _ => true);
    hits, misses := cache.GetMany(texts, _ => true);
    forall i | 0 <= i < |texts| && Writes(embeddings, ok, i)
      ensures var last := LastWrite(cache.digest, texts, embeddings, ok, |texts|, cache.digest(texts[i]));
              last.Some? && texts[last.value] == texts[i] && Hit(i, embeddings[last.value]) in hits && i !in misses
    {
      LastWriteIsOfTheText(cache.digest, texts, embeddings, ok, |texts|, i);
      var last := LastWrite(cache.digest, texts, embeddings, ok, |texts|, cache.digest(texts[i])).value;
      assert answers[i] == Some(embeddings[last]);
      MissesAreExact(answers, i);
      HitsAreExact(answers, Hit(i, embeddings[last]));
    }
  }

  // ---------------------------------------------------------------------------------------
  // The directory of a model
  // ---------------------------------------------------------------------------------------

  /** `alnum` is the character class the source keeps; everything else but `-` and `_` becomes `_`. */
  function Sane(c: char, alnum: char -> bool): char {
    if alnum(c) || c == '-' || c == '_' then c else '_'
  }

  function Sanitize(key: string, alnum: char -> bool): (dir: string)
    ensures |dir| == |key|
  {
    if key == "" then ""
    else
      var k := |key| - 1;
      Sanitize(key[..k], alnum) + [Sane(key[k], alnum)]
  }

  function CacheKey(model: string, dimensions: Option<nat>): string {
    match dimensions
    case Some(d) => model + "@" + Decimal(d)
    case None => model
  }

  function CacheDir(model: string, dimensions: Option<nat>, alnum: char -> bool): string {
    Sanitize(CacheKey(model, dimensions), alnum)
  }

  lemma {:induction false} SanitizeAt(key: string, alnum: char -> bool, i: nat)
    requires i < |key|
    ensures Sanitize(key, alnum)[i] == Sane(key[i], alnum)
  {
    if i < |key| - 1 { SanitizeAt(key[..|key| - 1], alnum, i); }
  }

  /** The directory's name: the model's, character by character, and after a dimension's `@` its digits. */
  lemma DirectoryName(model: string, dimensions: Option<nat>, alnum: char -> bool)
    requires forall d :: 0 <= d < 10 ==> alnum(Digit(d))
    ensures var dir := CacheDir(model, dimensions, alnum);
            && |dir| >= |model|
            && (forall i :: 0 <= i < |model| ==>
                  dir[i] == if alnum(model[i]) || model[i] == '-' || model[i] == '_' then model[i] else '_')
            && dir[|model|..] == match dimensions
                                 case None => ""
                                 case Some(d) => [if alnum('@') then '@' else '_'] + Decimal(d)
  {
    var key, dir := CacheKey(model, dimensions), CacheDir(model, dimensions, alnum);
    forall i | 0 <= i < |model|
      ensures dir[i] == if alnum(model[i]) || model[i] == '-' || model[i] == '_' then model[i] else '_'
    {
      SanitizeAt(key, alnum, i);
      assert key[i] == model[i];
    }
    if dimensions.Some? {
      var digits := Decimal(dimensions.value);
      SanitizeAppend(model + "@", digits, alnum);
      DecimalIsKept(dimensions.value, alnum);
      SanitizeAppend(model, "@", alnum);
      SanitizeAt("@", alnum, 0);
      assert Sanitize("@", alnum) == [if alnum('@') then '@' else '_'];
      Assoc(Sanitize(model, alnum), Sanitize("@", alnum), digits);
      SplitAppend(Sanitize(model, alnum), Sanitize("@", alnum) + digits);
    } else {
      assert dir[|model|..] == "";
    }
  }

  /** Any two models share a directory exactly when their keys are equally long and agree, character by
      character, once sanitised. */
  lemma ModelsShareADirectoryExactly(m: string, a: Option<nat>, n: string, b: Option<nat>, alnum: char -> bool)
    ensures CacheDir(m, a, alnum) == CacheDir(n, b, alnum)
            <==> var k, l := CacheKey(m, a), CacheKey(n, b);
                 |k| == |l| && forall i :: 0 <= i < |k| ==> Sane(k[i], alnum) == Sane(l[i], alnum)
  {
    var k, l := CacheKey(m, a), CacheKey(n, b);
    forall i | 0 <= i < |k| ensures Sanitize(k, alnum)[i] == Sane(k[i], alnum) { SanitizeAt(k, alnum, i); }
    forall i | 0 <= i < |l| ensures Sanitize(l, alnum)[i] == Sane(l[i], alnum) { SanitizeAt(l, alnum, i); }
    if |k| == |l| && forall i :: 0 <= i < |k| ==> Sane(k[i], alnum) == Sane(l[i], alnum) {
      assert Sanitize(k, alnum) == Sanitize(l, alnum);
    }
  }

  lemma {:induction false} SanitizeAppend(a: string, b: string, alnum: char -> bool)
    ensures Sanitize(a + b, alnum) == Sanitize(a, alnum) + Sanitize(b, alnum)
  {
    if b == "" {
      assert a + b == a;
    } else {
      var k := |b| - 1;
      SanitizeAppend(a, b[..k], alnum);
      assert (a + b)[..|a| + k] == a + b[..k];
    }
  }

  lemma {:induction false} DecimalIsKept(n: nat, alnum: char -> bool)
    requires forall d :: 0 <= d < 10 ==> alnum(Digit(d))
    ensures Sanitize(Decimal(n), alnum) == Decimal(n)
  {
    if n >= 10 {
      DecimalIsKept(n / 10, alnum);
      Pushed(Decimal(n / 10), Digit(n % 10));
    } else {
      Pushed("", Digit(n));
    }
  }

  lemma DecimalIsInjective(m: nat, n: nat)
    requires Decimal(m) == Decimal(n)
    ensures m == n
  {
    DecimalReadsBack(m);
    DecimalReadsBack(n);
  }

  /** One model at different output dimensions never shares a directory. */
  lemma DimensionsKeepApart(model: string, a: Option<nat>, b: Option<nat>, alnum: char -> bool)
    requires forall d :: 0 <= d < 10 ==> alnum(Digit(d))
    ensures CacheDir(model, a, alnum) == CacheDir(model, b, alnum) <==> a == b
  {
    var stem := Sanitize(model + "@", alnum);
    forall d: nat ensures Sanitize(model + "@" + Decimal(d), alnum) == stem + Decimal(d) {
      SanitizeAppend(model + "@", Decimal(d), alnum);
      DecimalIsKept(d, alnum);
    }
    if a.Some? && b.Some? && CacheDir(model, a, alnum) == CacheDir(model, b, alnum) {
      assert (stem + Decimal(a.value))[|stem|..] == Decimal(a.value);
      assert (stem + Decimal(b.value))[|stem|..] == Decimal(b.value);
      DecimalIsInjective(a.value, b.value);
    }
  }

  /** So two different models may share one: `m` at dimension 8 and a model named `m_8`. */
  lemma ModelsMayShareADirectory(alnum: char -> bool)
    requires !alnum('@')
    ensures CacheDir("m", Some(8), alnum) == CacheDir("m_8", None, alnum)
  {
    assert Decimal(8) == "8";
    assert CacheKey("m", Some(8)) == "m@8";
    ModelsShareADirectoryExactly("m", Some(8), "m_8", None, alnum);
  }
}
