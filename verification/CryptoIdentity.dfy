/** Which pipeline stages encrypt, and the part of a blob's identity that comes from them
    (domain/crypto_identity.go). */
module CryptoIdentity {
  import opened Basics

  /** What a manifest records about one pipeline stage. */
  datatype Stage = Stage(algorithm: string, hash: string, iv: Bytes, keyID: string)

  predicate SameKey(a: Stage, b: Stage) {
    a.algorithm == b.algorithm && a.keyID == b.keyID
  }

  function LowerChar(c: char): char {
    if 'A' <= c <= 'Z' then (c as int + 32) as char else c
  }

  /** ASCII lowering; no other letter lowers to a letter of the two names below. */
  function ToLower(s: string): string
    decreases |s|
  {
    if s == [] then [] else [LowerChar(s[0])] + ToLower(s[1..])
  }

  const CryptoAlgorithms: set<string> := {"aes-gcm", "chacha20-poly1305"}

  predicate IsCryptoAlgorithm(algo: string) {
    ToLower(algo) in CryptoAlgorithms
  }

  lemma {:induction false} LowerAt(s: string, i: nat)
    requires i < |s|
    ensures |ToLower(s)| == |s| && ToLower(s)[i] == LowerChar(s[i])
    decreases |s|
  {
    if i > 0 { LowerAt(s[1..], i - 1); } else if |s| > 1 { LowerAt(s[1..], 0); }
  }

  /** The same letter in the other case. */
  predicate OtherCase(lower: char, c: char) {
    'a' <= lower <= 'z' && c as int == lower as int - 32
  }

  predicate SameUpToCase(name: string, algo: string) {
    |name| == |algo| && forall i :: 0 <= i < |algo| ==> algo[i] == name[i] || OtherCase(name[i], algo[i])
  }

  lemma LowersTo(name: string, algo: string)
    requires name != [] && forall c :: c in name ==> !('A' <= c <= 'Z')
    ensures ToLower(algo) == name <==> SameUpToCase(name, algo)
  {
    if ToLower(algo) == name || |algo| == |name| {
      if algo != [] { LowerAt(algo, 0); }
      forall i | 0 <= i < |algo| ensures |ToLower(algo)| == |algo| && ToLower(algo)[i] == LowerChar(algo[i]) {
        LowerAt(algo, i);
      }
      assert forall i :: 0 <= i < |name| ==> name[i] in name;
    }
  }

  lemma NamesAreLower(name: string)
    requires name in CryptoAlgorithms
    ensures name != [] && forall c :: c in name ==> !('A' <= c <= 'Z')
  {
  }

  /** A cipher is named by either name, in any mixture of cases. */
  lemma CryptoExactlyWhen(algo: string)
    ensures IsCryptoAlgorithm(algo) <==> exists name :: name in CryptoAlgorithms && SameUpToCase(name, algo)
  {
    forall name | name in CryptoAlgorithms ensures ToLower(algo) == name <==> SameUpToCase(name, algo) {
      NamesAreLower(name);
      LowersTo(name, algo);
    }
    if IsCryptoAlgorithm(algo) { assert SameUpToCase(ToLower(algo), algo); }
  }

  function IdentityOf(stages: seq<Stage>): string
    decreases |stages|
  {
    if stages == [] then ""
    else
      var last := stages[|stages| - 1];
      if IsCryptoAlgorithm(last.algorithm) then last.algorithm + "/" + last.keyID
      else IdentityOf(stages[..|stages| - 1])
  }

  method CryptoIdentityOf(stages: seq<Stage>) returns (id: string)
    ensures id == IdentityOf(stages)
  {
    id := "";
    var i := 0;
    while i < |stages|
      invariant 0 <= i <= |stages|
      invariant id == IdentityOf(stages[..i])
    {
      var s := stages[i];
      assert stages[..i + 1][..i] == stages[..i];
      if IsCryptoAlgorithm(s.algorithm) { id := s.algorithm + "/" + s.keyID; }
      i := i + 1;
    }
    assert stages[..i] == stages;
  }

  /** The stages that encrypt, in order. */
  function CryptoStages(stages: seq<Stage>): seq<Stage>
    decreases |stages|
  {
    if stages == [] then []
    else
      var last := stages[|stages| - 1];
      CryptoStages(stages[..|stages| - 1]) + if IsCryptoAlgorithm(last.algorithm) then [last] else []
  }

  lemma {:induction false} LowerKeepsSlash(s: string)
    ensures '/' in s ==> '/' in ToLower(s)
    decreases |s|
  {
    if s != [] { LowerKeepsSlash(s[1..]); }
  }

  lemma NoSlash(algo: string)
    requires IsCryptoAlgorithm(algo)
    ensures '/' !in algo
  {
    LowerKeepsSlash(algo);
    assert '/' !in "aes-gcm" && '/' !in "chacha20-poly1305";
  }

  /** Splitting at the first slash. */
  lemma SlashSplit(a: string, b: string, x: string, y: string)
    requires '/' !in a && '/' !in x && a + "/" + b == x + "/" + y
    ensures a == x && b == y
  {
    var s := a + "/" + b;
    assert s[|a|] == '/' && forall i :: 0 <= i < |a| ==> s[i] == a[i] && s[i] in a;
    assert s == x + "/" + y;
    assert s[|x|] == '/' && forall i :: 0 <= i < |x| ==> s[i] == x[i] && s[i] in x;
    assert |a| == |x|;
    assert a == s[..|a|] && b == s[|a| + 1..] && y == s[|x| + 1..];
  }

  function KeyText(s: Stage): string {
    s.algorithm + "/" + s.keyID
  }

  lemma {:induction false} IdentityIsLastCrypto(stages: seq<Stage>)
    ensures var c := CryptoStages(stages);
            if c == [] then IdentityOf(stages) == ""
            else IdentityOf(stages) == KeyText(c[|c| - 1]) && '/' !in c[|c| - 1].algorithm
    decreases |stages|
  {
    if stages != [] {
      var last := stages[|stages| - 1];
      IdentityIsLastCrypto(stages[..|stages| - 1]);
      if IsCryptoAlgorithm(last.algorithm) { NoSlash(last.algorithm); }
    }
  }

  lemma SameText(a: Stage, b: Stage)
    requires '/' !in a.algorithm && '/' !in b.algorithm
    ensures KeyText(a) == KeyText(b) <==> SameKey(a, b)
  {
    if KeyText(a) == KeyText(b) { SlashSplit(a.algorithm, a.keyID, b.algorithm, b.keyID); }
  }

  /** The identity says exactly which key closes the stream: two blobs have the same one if and only
      if neither is encrypted, or the last encrypting stages agree on algorithm and key.  Stages
      that do not encrypt never matter. */
  lemma IdentityExactlyWhen(p: seq<Stage>, q: seq<Stage>)
    ensures var c, d := CryptoStages(p), CryptoStages(q);
            IdentityOf(p) == IdentityOf(q) <==>
            (c == [] && d == []) || (c != [] && d != [] && SameKey(c[|c| - 1], d[|d| - 1]))
  {
    IdentityIsLastCrypto(p);
    IdentityIsLastCrypto(q);
    var c, d := CryptoStages(p), CryptoStages(q);
    if c != [] && d != [] { SameText(c[|c| - 1], d[|d| - 1]); }
  }
}
