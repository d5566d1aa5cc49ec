/** The auditor's stand-alone proof check, which works on hexadecimal text. */
module SdkVerifier {
  import opened Bytes
  import opened Hex
  import Merkle

  function Strip(h: string): string { if |h| >= 2 && h[0] == '0' && h[1] == 'x' then h[2..] else h }

  // ---------- reading hex text of any form ----------

  predicate IsLineEnd(c: char) { c as int in {0x0A, 0x0D, 0x2028, 0x2029} }

  /** White space that parseInt skips (line ends are never part of a piece). */
  predicate IsSpace(c: char) {
    c as int in {0x09, 0x0B, 0x0C, 0x20, 0xA0, 0x1680, 0x202F, 0x205F, 0x3000, 0xFEFF} || 0x2000 <= c as int <= 0x200A
  }

  /** The pieces that the pattern of one or two characters, line ends excepted, finds one after the other. */
  function Pieces(s: string): seq<string> {
    if s == "" then []
    else if IsLineEnd(s[0]) then Pieces(s[1..])
    else if |s| >= 2 && !IsLineEnd(s[1]) then [s[..2]] + Pieces(s[2..])
    else [s[..1]] + Pieces(s[1..])
  }

  /** The value of the leading hex digits, 0 when there are none: not-a-number becomes 0 in a byte array. */
  function LeadingDigits(s: string): nat {
    if s == "" || DigitValue(s[0]) < 0 then 0
    else if |s| == 1 || DigitValue(s[1]) < 0 then DigitValue(s[0])
    else 16 * DigitValue(s[0]) + DigitValue(s[1])
  }

  /** parseInt(piece, 16) as a byte: white space, a sign, digits up to the first character that is none. (A 0x
      that fills the piece gives 0 either way.) */
  function ParsePiece(s: string): byte
    requires |s| <= 2
    decreases |s|
  {
    if s == "" then 0
    else if IsSpace(s[0]) then ParsePiece(s[1..])
    else if s[0] == '-' then (256 - LeadingDigits(s[1..])) % 256
    else if s[0] == '+' then LeadingDigits(s[1..])
    else LeadingDigits(s)
  }

  predicate Short(pieces: seq<string>) { forall p :: p in pieces ==> |p| <= 2 }

  lemma {:induction false} PiecesAreShort(s: string)
    ensures Short(Pieces(s))
    decreases |s|
  {
    if s == "" {
    } else if IsLineEnd(s[0]) {
      PiecesAreShort(s[1..]);
    } else if |s| >= 2 && !IsLineEnd(s[1]) {
      PiecesAreShort(s[2..]);
    } else {
      PiecesAreShort(s[1..]);
    }
  }

  function ParseAll(pieces: seq<string>): Bytes
    requires Short(pieces)
  {
    if pieces == [] then [] else [ParsePiece(pieces[0])] + ParseAll(pieces[1..])
  }

  /** The bytes the verifier reads from text of any form, with or without 0x. */
  function BytesOf(h: string): Bytes {
    PiecesAreShort(Strip(h));
    ParseAll(Pieces(Strip(h)))
  }

  /** From well-formed text it reads what the service reads. */
  lemma {:induction false} WellFormedReadsAlike(s: string)
    requires WellFormed(s)
    ensures Short(Pieces(s)) && ParseAll(Pieces(s)) == FromHex(s)
    decreases |s|
  {
    PiecesAreShort(s);
    if s != "" {
      var rest := s[2..];
      forall i | 0 <= i < |rest| ensures DigitValue(rest[i]) >= 0 {
        assert rest[i] == s[i + 2];
      }
      WellFormedReadsAlike(rest);
      DigitIsPlain(s[0]);
      DigitIsPlain(s[1]);
      assert Pieces(s) == [s[..2]] + Pieces(rest);
      assert ParsePiece(s[..2]) == 16 * DigitValue(s[0]) + DigitValue(s[1]);
    }
  }

  lemma DigitIsPlain(c: char)
    requires DigitValue(c) >= 0
    ensures !IsLineEnd(c) && !IsSpace(c) && c != '-' && c != '+'
  {
  }

  // ---------- the verifier ----------

  method LeafHash(k: Hash, leaf: Bytes) returns (r: Bytes)
    ensures r == Merkle.HashLeaf(k, leaf)
  {
    r := k([0] + leaf);
  }

  method NodeHash(k: Hash, a: Bytes, b: Bytes) returns (r: Bytes)
    ensures r == Merkle.HashInternal(k, a, b)
  {
    var lo, hi := a, b;
    if CompareText(ToHex(a), ToHex(b)) > 0 {
      lo, hi := b, a;
    }
    TextOrderIsByteOrder(a, b);
    r := k([1] + lo + hi);
  }

  function ProofBytes(proof: seq<string>): seq<Bytes> {
    seq(|proof|, i requires 0 <= i < |proof| => BytesOf(proof[i]))
  }

  /** Lower case does not turn a character into a hex digit. */
  lemma LowerKeepsForm(s: string)
    ensures WellFormed(Lower(s)) <==> WellFormed(s)
  {
    forall i | 0 <= i < |s| ensures DigitValue(Lower(s)[i]) >= 0 <==> DigitValue(s[i]) >= 0 {
      assert Lower(s)[i] == LowerChar(s[i]);
    }
  }

  lemma RootTextMatches(acc: Bytes, root: string)
    ensures ToHex(acc) == Lower(root) <==> WellFormed(root) && acc == FromHex(root)
  {
    ReadsBack(acc);
    LowerKeepsForm(root);
    if WellFormed(root) {
      WritesBack(root);
      ReadsBack(FromHex(root));
    }
  }

  /** Accepts exactly what the service's own verifier accepts for the bytes read from the event and proof text,
      whatever their form, and never a root text that is not well-formed. */
  method VerifyInclusion(k: Hash, rootHex: string, eventHashHex: string, proofHex: seq<string>) returns (ok: bool)
    ensures ok <==>
      && WellFormed(Strip(rootHex))
      && Merkle.Accepts(k, FromHex(Strip(rootHex)), BytesOf(eventHashHex), ProofBytes(proofHex))
  {
    ghost var proof := ProofBytes(proofHex);
    var acc := LeafHash(k, BytesOf(eventHashHex));
    for i := 0 to |proofHex|
      invariant acc == Merkle.Fold(k, Merkle.HashLeaf(k, BytesOf(eventHashHex)), proof[..i])
    {
      assert proof[..i + 1][..i] == proof[..i];
      acc := NodeHash(k, acc, BytesOf(proofHex[i]));
    }
    assert proof[..|proofHex|] == proof;
    ok := ToHex(acc) == Lower(Strip(rootHex));
    RootTextMatches(acc, Strip(rootHex));
  }

  /** For well-formed text the bytes are those the service reads, so both verifiers agree on it. */
  lemma BothReadAlike(eventHashHex: string, proofHex: seq<string>)
    requires WellFormed(Strip(eventHashHex)) && forall h :: h in proofHex ==> WellFormed(Strip(h))
    ensures BytesOf(eventHashHex) == FromHex(Strip(eventHashHex))
    ensures forall i :: 0 <= i < |proofHex| ==> ProofBytes(proofHex)[i] == FromHex(Strip(proofHex[i]))
  {
    WellFormedReadsAlike(Strip(eventHashHex));
    forall i | 0 <= i < |proofHex| ensures ProofBytes(proofHex)[i] == FromHex(Strip(proofHex[i])) {
      WellFormedReadsAlike(Strip(proofHex[i]));
    }
  }

  /** Bytes written in hex are read back with or without 0x, as event, proof element and root alike; an upper-case 0X
      is not stripped but read as one more zero byte, and makes a root text ill-formed. */
  lemma WrittenTextReadsBack(b: Bytes)
    ensures BytesOf(ToHex(b)) == b && BytesOf("0x" + ToHex(b)) == b && BytesOf("0X" + ToHex(b)) == [0] + b
    ensures WellFormed(Strip(ToHex(b))) && FromHex(Strip(ToHex(b))) == b
    ensures WellFormed(Strip("0x" + ToHex(b))) && FromHex(Strip("0x" + ToHex(b))) == b
    ensures !WellFormed(Strip("0X" + ToHex(b)))
  {
    var s := ToHex(b);
    ReadsBack(b);
    assert |s| >= 2 ==> DigitValue(s[1]) >= 0;
    assert ("0x" + s)[2..] == s;
    WellFormedReadsAlike(s);
    UpperPrefixIsRead(s);
  }

  lemma UpperPrefixIsRead(s: string)
    requires WellFormed(s)
    ensures Strip("0X" + s) == "0X" + s && !WellFormed("0X" + s)
    ensures BytesOf("0X" + s) == [0] + BytesOf(Strip(s))
  {
    var t := "0X" + s;
    assert t[..2] == "0X" && t[2..] == s && DigitValue(t[1]) < 0;
    assert |s| >= 2 ==> DigitValue(s[1]) >= 0;
    WellFormedReadsAlike(s);
    PiecesAreShort(t);
    assert Pieces(t) == ["0X"] + Pieces(s);
    assert ParsePiece("0X") == 0;
  }
}
