/** The deployed-code check: immutable byte ranges are zeroed before the code is hashed and compared. */
module Bytecode {
  import opened Bytes
  import opened Hex

  datatype ImmutableRef = ImmutableRef(start: int, length: int)

  datatype Result<T> = Ok(value: T) | RangeError

  datatype BytecodeMatchResult = BytecodeMatchResult(matches: bool, actualSha256: string)

  function Strip0x(hex: string): string {
    Lower(if |hex| >= 2 && hex[0] == '0' && (hex[1] == 'x' || hex[1] == 'X') then hex[2..] else hex)
  }

  predicate InBounds(ref: ImmutableRef, size: nat) {
    0 <= ref.start && 0 <= ref.length && ref.start + ref.length <= size
  }

  predicate AllInBounds(refs: seq<ImmutableRef>, size: nat) {
    forall ref :: ref in refs ==> InBounds(ref, size)
  }

  /** The byte at `i` belongs to one of the ranges. */
  predicate Covered(refs: seq<ImmutableRef>, i: int) {
    exists ref :: ref in refs && ref.start <= i < ref.start + ref.length
  }

  function Masked(code: Bytes, refs: seq<ImmutableRef>): Bytes {
    seq(|code|, i requires 0 <= i < |code| => if Covered(refs, i) then 0 else code[i])
  }

  ghost predicate AgreeOutside(a: Bytes, b: Bytes, refs: seq<ImmutableRef>) {
    |a| == |b| && forall i :: 0 <= i < |a| && !Covered(refs, i) ==> a[i] == b[i]
  }

  method Fill(buf: array<byte>, start: nat, end: nat)
    requires start <= end <= buf.Length
    modifies buf
    ensures forall i :: 0 <= i < buf.Length ==> buf[i] == if start <= i < end then 0 else old(buf[i])
  {
    for i := start to end
      invariant forall j :: 0 <= j < buf.Length ==> buf[j] == if start <= j < i then 0 else old(buf[j])
    {
      buf[i] := 0;
    }
  }

  lemma CoveredNext(refs: seq<ImmutableRef>, n: nat, i: int)
    requires n < |refs|
    ensures Covered(refs[..n + 1], i) <==> Covered(refs[..n], i) || refs[n].start <= i < refs[n].start + refs[n].length
  {
    assert refs[..n + 1] == refs[..n] + [refs[n]];
    assert refs[n] in refs[..n + 1];
    if Covered(refs[..n], i) {
      var ref :| ref in refs[..n] && ref.start <= i < ref.start + ref.length;
      assert ref in refs[..n + 1];
    }
  }

  /** Zeroes the ranges one after the other; the first one out of bounds ends it with an error. */
  method MaskImmutables(runtimeHex: string, refs: seq<ImmutableRef>) returns (r: Result<string>)
    ensures var code := FromHex(Strip0x(runtimeHex));
      r == if AllInBounds(refs, |code|) then Ok(ToHex(Masked(code, refs))) else RangeError
    ensures var code := FromHex(Strip0x(runtimeHex));
      && (r.Ok? <==> forall ref :: ref in refs ==>
            0 <= ref.start && 0 <= ref.length && ref.start + ref.length <= |code|)
      && (r.Ok? ==>
            var masked := FromHex(r.value);
            |masked| == |code| &&
            forall i :: 0 <= i < |code| ==>
              masked[i] == if exists ref :: ref in refs && ref.start <= i < ref.start + ref.length then 0 else code[i])
  {
    var code := FromHex(Strip0x(runtimeHex));
    var buf := new byte[|code|](i requires 0 <= i < |code| => code[i]);
    for n := 0 to |refs|
      invariant AllInBounds(refs[..n], |code|)
      invariant forall i :: 0 <= i < |code| ==> buf[i] == if Covered(refs[..n], i) then 0 else code[i]
    {
      var ref := refs[n];
      if ref.start < 0 || ref.length < 0 || ref.start + ref.length > buf.Length {
        assert ref in refs;
        return RangeError;
      }
      Fill(buf, ref.start, ref.start + ref.length);
      assert refs[..n + 1] == refs[..n] + [ref];
      forall i | 0 <= i < |code| ensures buf[i] == if Covered(refs[..n + 1], i) then 0 else code[i] {
        CoveredNext(refs, n, i);
      }
    }
    assert refs[..|refs|] == refs;
    assert buf[..] == Masked(code, refs);
    ReadsBack(buf[..]);
    r := Ok(ToHex(buf[..]));
  }

  method MaskedRuntimeSha256(sha256: Hash, runtimeHex: string, refs: seq<ImmutableRef>) returns (r: Result<string>)
    ensures var code := FromHex(Strip0x(runtimeHex));
      r == if AllInBounds(refs, |code|) then Ok(ToHex(sha256(Masked(code, refs)))) else RangeError
  {
    var masked := MaskImmutables(runtimeHex, refs);
    if masked.RangeError? {
      return RangeError;
    }
    ReadsBack(Masked(FromHex(Strip0x(runtimeHex)), refs));
    r := Ok(ToHex(sha256(FromHex(masked.value))));
  }

  /** The code the check looks at: the text is stripped once here and once more when it is masked. */
  function DeployedCode(deployedHex: string): Bytes { FromHex(Strip0x(Strip0x(deployedHex))) }

  /** There is code, every range lies inside it, and its masked hash is the expected one in either case. */
  ghost predicate Matches(sha256: Hash, deployedHex: string, expected: string, refs: seq<ImmutableRef>) {
    var code := DeployedCode(deployedHex);
    && Strip0x(deployedHex) != "" && AllInBounds(refs, |code|)
    && ToHex(sha256(Masked(code, refs))) == Lower(expected)
  }

  method DeployedRuntimeMatches(sha256: Hash, deployedHex: string, expectedMaskedSha256: string,
                                refs: seq<ImmutableRef>)
    returns (r: BytecodeMatchResult)
    ensures r.matches <==> Matches(sha256, deployedHex, expectedMaskedSha256, refs)
    ensures r.matches ==> r.actualSha256 == Lower(expectedMaskedSha256)
  {
    var stripped := Strip0x(deployedHex);
    if |stripped| == 0 {
      return BytecodeMatchResult(false, "");
    }
    var actual := MaskedRuntimeSha256(sha256, stripped, refs);
    if actual.RangeError? {
      return BytecodeMatchResult(false, "");
    }
    r := BytecodeMatchResult(actual.value == Lower(expectedMaskedSha256), actual.value);
  }

  /** Well-formed text of either case reads as its bytes with or without a prefix of either case, however often it is
      stripped. */
  lemma PrefixIsStripped(s: string, prefix: string)
    requires WellFormed(s) && prefix in {"", "0x", "0X"}
    ensures FromHex(Strip0x(prefix + s)) == FromHex(s) && DeployedCode(prefix + s) == FromHex(s)
    ensures Strip0x(prefix + s) == "" <==> s == ""
  {
    assert |s| >= 2 ==> DigitValue(s[1]) >= 0;
    assert prefix != "" ==> (prefix + s)[2..] == s;
    assert prefix == "" ==> prefix + s == s;
    assert Strip0x(prefix + s) == Lower(s);
    LowerReadsAlike(s);
    assert |s| >= 2 ==> DigitValue(Lower(s)[1]) >= 0;
    assert Strip0x(Lower(s)) == Lower(Lower(s));
    LowerReadsAlike(Lower(s));
  }

  /** Code as a node answers with it: 0x and its bytes in hex. It matches the recorded hash of an audited artifact if
      it agrees with it outside the ranges, and only then unless the hash collides on the two. */
  lemma WrittenCodeMatches(sha256: Hash, code: Bytes, artifact: Bytes, refs: seq<ImmutableRef>)
    requires AllInBounds(refs, |artifact|) && artifact != []
    ensures var deployed, recorded := "0x" + ToHex(code), ToHex(sha256(Masked(artifact, refs)));
      && (AgreeOutside(code, artifact, refs) ==> Matches(sha256, deployed, recorded, refs))
      && (Matches(sha256, deployed, recorded, refs) ==>
            AgreeOutside(code, artifact, refs) || Collision(sha256, {Masked(code, refs), Masked(artifact, refs)}))
  {
    ReadsBack(code);
    PrefixIsStripped(ToHex(code), "0x");
    LowerHex(sha256(Masked(artifact, refs)));
    MatchMeansAgreement(sha256, "0x" + ToHex(code), artifact, ToHex(sha256(Masked(artifact, refs))), refs);
  }

  /** Two codes mask to the same bytes exactly if they have one length and agree outside the ranges. */
  lemma MaskedEqualIff(a: Bytes, b: Bytes, refs: seq<ImmutableRef>)
    ensures Masked(a, refs) == Masked(b, refs) <==> AgreeOutside(a, b, refs)
  {
    var x, y := Masked(a, refs), Masked(b, refs);
    if x == y {
      assert |x| == |a| && |y| == |b|;
      forall i | 0 <= i < |a| && !Covered(refs, i) ensures a[i] == b[i] {
        assert x[i] == a[i] && y[i] == b[i];
      }
    }
  }

  /** Neither the order of the ranges nor their overlaps matter, only which bytes they cover. */
  lemma OnlyTheUnionMatters(code: Bytes, refs: seq<ImmutableRef>, others: seq<ImmutableRef>)
    requires forall i :: 0 <= i < |code| ==> (Covered(refs, i) <==> Covered(others, i))
    ensures Masked(code, refs) == Masked(code, others)
  {
  }

  lemma HexInjective(a: Bytes, b: Bytes)
    ensures ToHex(a) == ToHex(b) <==> a == b
  {
    ReadsBack(a);
    ReadsBack(b);
  }

  /** Against the recorded hash of an audited artifact, deployed code matches exactly if it has the
      artifact's length and agrees with it outside the ranges, or the hash function collides on the two. */
  lemma MatchMeansAgreement(sha256: Hash, deployedHex: string, artifact: Bytes, expected: string,
                            refs: seq<ImmutableRef>)
    requires AllInBounds(refs, |artifact|) && artifact != []
    requires Lower(expected) == ToHex(sha256(Masked(artifact, refs)))
    ensures var code := DeployedCode(deployedHex);
      && (AgreeOutside(code, artifact, refs) ==> Matches(sha256, deployedHex, expected, refs))
      && (Matches(sha256, deployedHex, expected, refs) ==>
            AgreeOutside(code, artifact, refs) || Collision(sha256, {Masked(code, refs), Masked(artifact, refs)}))
  {
    var code := DeployedCode(deployedHex);
    MaskedEqualIff(code, artifact, refs);
    HexInjective(sha256(Masked(code, refs)), sha256(Masked(artifact, refs)));
    assert Strip0x("") == "";
  }
}
