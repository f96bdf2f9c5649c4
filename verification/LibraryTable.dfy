/** What the decoder does with the library's own frequency table: it accepts exactly the complete inputs. */
module LibraryTable {
  import opened Bits
  import opened HuffmanTree
  import opened HuffmanNodes
  import opened HuffmanDecode
  import opened FrequencyTable
  import opened EndOfStreamCode

  lemma OneBitInZeros(t: Tree, s: nat, i: nat)
    requires t.Distinct() && s in t.Symbols() && i < |t.Code(s)| && t.Code(s)[i]
    ensures LeafAt(t, 0) != s
  {
    WalkSpellsCode(t, 0);
    if LeafAt(t, 0) == s {
      ZeroBits(|t.Code(s)|, i);
    }
  }

  lemma {:induction false} ZeroBits(n: nat, i: nat)
    requires i < n
    ensures !BitsOf(0, n)[i]
  {
    if i == 0 {
    } else {
      ZeroBits(n - 1, i - 1);
    }
  }

  /** With the library's table no false end is possible. */
  lemma TableHasNoFalseEnd()
    ensures NoFalseEnd(TreeOf(TABLE))
  {
    var t := TreeOf(TABLE);
    var c := t.Code(EOF_SYMBOL);
    TableIsShort();
    TableTree(TABLE);
    EofCode();
    assert c[|c| - 3..][0] && c[|c| - 3];
    OneBitInZeros(t, EOF_SYMBOL, |c| - 3);
  }

  /** So the decompression of the library accepts exactly the inputs that contain the end-of-stream code. */
  lemma LibraryAcceptsComplete(input: seq<byte>, room: nat)
    ensures AcceptsComplete(TreeOf(TABLE), input, room)
  {
    TableIsShort();
    TableHasNoFalseEnd();
    SuccessExactly(TABLE);
  }
}
