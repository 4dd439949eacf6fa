/** The body of a write request: a length byte, three bytes of padding, a big-endian value length,
    then the key and the value. */
module WriteRequests {
  import opened Options
  import opened Bytes

  const HEADER := 8
  const MAX_VALUE := 5 * 256 * 1024

  datatype Binding = Binding(key: seq<byte>, value: seq<byte>)

  /** The bytes of a request, with whatever the padding holds. */
  function Layout(w: Binding, padding: seq<byte>): (body: seq<byte>)
    requires |w.key| < 256 && |w.value| < 0x1_0000_0000 && |padding| == 3
    ensures |body| == HEADER + |w.key| + |w.value|
  {
    [|w.key| as byte] + padding + Big(4, |w.value|) + w.key + w.value
  }

  /** The same byte by byte: the lengths, most significant byte first, the key and the value. */
  lemma LayoutBytes(w: Binding, padding: seq<byte>)
    requires |w.key| < 256 && |w.value| < 0x1_0000_0000 && |padding| == 3
    ensures var body, n := Layout(w, padding), |w.value|;
            && |body| == 8 + |w.key| + n
            && body[0] as nat == |w.key| && body[1..4] == padding
            && body[4] as nat == n / 0x100_0000 && body[5] as nat == n / 0x1_0000 % 256
            && body[6] as nat == n / 0x100 % 256 && body[7] as nat == n % 256
            && body[8..8 + |w.key|] == w.key && body[8 + |w.key|..] == w.value
  {
    hide Big;
    WordBytes(|w.value|);
    var body := Layout(w, padding);
    assert body[4..8] == Big(4, |w.value|);
    forall i | 0 <= i < 4 ensures body[4 + i] == Big(4, |w.value|)[i] {
      assert body[4 + i] == body[4..8][i];
    }
  }

  /** `Make`: NULL for a value over the limit, otherwise a fresh buffer whose padding is left as it was. */
  method Make(w: Binding) returns (buf: array?<byte>)
    requires |w.key| < 256 && |w.value| < 0x1_0000_0000
    ensures buf == null <==> |w.value| > 1_310_720
    ensures buf != null ==> fresh(buf) && buf.Length == HEADER + |w.key| + |w.value|
    ensures buf != null ==> buf[..] == Layout(w, buf[1..4])
  {
    if |w.value| > MAX_VALUE {
      return null;
    }
    hide Big;
    buf := new byte[HEADER + |w.key| + |w.value|];
    Copy(buf, 0, [|w.key| as byte]);
    Copy(buf, 4, Big(4, |w.value|));
    Copy(buf, HEADER, w.key);
    Copy(buf, HEADER + |w.key|, w.value);
    Pieces(buf[..], w);
  }

  lemma Pieces(bs: seq<byte>, w: Binding)
    requires |w.key| < 256 && |w.value| < 0x1_0000_0000 && |bs| == HEADER + |w.key| + |w.value|
    requires bs[0] == |w.key| as byte && bs[4..8] == Big(4, |w.value|)
    requires bs[8..8 + |w.key|] == w.key && bs[8 + |w.key|..] == w.value
    ensures bs == Layout(w, bs[1..4])
  {
    hide Big;
    assert bs == [bs[0]] + bs[1..4] + bs[4..8] + bs[8..8 + |w.key|] + bs[8 + |w.key|..];
  }

  /** memcpy. */
  method Copy(buf: array<byte>, at: nat, bytes: seq<byte>)
    requires at + |bytes| <= buf.Length
    modifies buf
    ensures buf[at..at + |bytes|] == bytes
    ensures forall i :: 0 <= i < buf.Length && !(at <= i < at + |bytes|) ==> buf[i] == old(buf[i])
  {
    for i := 0 to |bytes|
      invariant forall k :: 0 <= k < i ==> buf[at + k] == bytes[k]
      invariant forall k :: 0 <= k < buf.Length && !(at <= k < at + i) ==> buf[k] == old(buf[k])
    {
      buf[at + i] := bytes[i];
    }
  }

  function KeyLen(header: seq<byte>): nat
    requires |header| == HEADER
  {
    header[0] as nat
  }

  function ValueLen(header: seq<byte>): nat
    requires |header| == HEADER
  {
    FromBig(header[4..8])
  }

  /** `FromBody` reads the eight header bytes before it compares lengths; `beyond` is what memory
      holds past the end of a body shorter than that. */
  function FromBody(body: seq<byte>, beyond: seq<byte>): Option<Binding>
    requires |beyond| == HEADER
  {
    var header := (body + beyond)[..HEADER];
    if HEADER + KeyLen(header) + ValueLen(header) != |body| then None
    else Some(Binding(body[HEADER..HEADER + KeyLen(header)], body[HEADER + KeyLen(header)..]))
  }

  /** Accepted exactly when the body has a header and its two lengths add up, whatever lies beyond. */
  lemma FromBodyIff(body: seq<byte>, beyond: seq<byte>)
    requires |beyond| == HEADER
    ensures FromBody(body, beyond).Some? <==>
            |body| >= HEADER && HEADER + KeyLen(body[..HEADER]) + ValueLen(body[..HEADER]) == |body|
    ensures FromBody(body, beyond).Some? ==>
              var w := FromBody(body, beyond).value;
              && w.key + w.value == body[HEADER..]
              && |w.key| == body[0] as nat && |w.value| == FromBig(body[4..8])
  {
    if |body| >= HEADER {
      assert (body + beyond)[..HEADER] == body[..HEADER];
      assert body[..HEADER][4..8] == body[4..8];
    }
  }

  /** The lengths that a body of at least eight bytes says its key and its value have. */
  function SaidLengths(body: seq<byte>): nat
    requires |body| >= 8
  {
    body[0] as nat +
    (0x100_0000 * (body[4] as nat) + 0x1_0000 * (body[5] as nat) + 0x100 * (body[6] as nat) + body[7] as nat)
  }

  /** What parsing gives, in terms of the bytes. */
  lemma FromBodyBytes(body: seq<byte>, beyond: seq<byte>)
    requires |beyond| == HEADER
    ensures FromBody(body, beyond) ==
            if |body| >= 8 && 8 + SaidLengths(body) == |body|
            then Some(Binding(body[8..8 + body[0] as nat], body[8 + body[0] as nat..]))
            else None
  {
    FromBodyIff(body, beyond);
    if |body| >= 8 {
      BigWord(body[4..8]);
      assert body[..HEADER][4..8] == body[4..8];
      assert (body + beyond)[..HEADER] == body[..HEADER];
    }
  }

  /** What lies beyond the body never changes the outcome. */
  lemma BeyondIgnored(body: seq<byte>, beyond: seq<byte>, other: seq<byte>)
    requires |beyond| == |other| == HEADER
    ensures FromBody(body, beyond) == FromBody(body, other)
  {
    FromBodyIff(body, beyond);
    FromBodyIff(body, other);
  }

  /** Every request that was made is accepted, and gives back its key and its value. */
  lemma LayoutRoundTrip(w: Binding, padding: seq<byte>, beyond: seq<byte>)
    requires |w.key| < 256 && |w.value| < 0x1_0000_0000 && |padding| == 3 && |beyond| == HEADER
    ensures FromBody(Layout(w, padding), beyond) == Some(w)
  {
    var body := Layout(w, padding);
    var header := (body + beyond)[..HEADER];
    assert header[4..8] == Big(4, |w.value|);
    LimitWidths();
    BigRoundTrip(4, |w.value|);
    assert body[HEADER..HEADER + |w.key|] == w.key;
    assert body[HEADER + |w.key|..] == w.value;
  }

  /** Conversely, an accepted body is the layout of what it parses to. */
  lemma FromBodyLayout(body: seq<byte>, beyond: seq<byte>)
    requires |beyond| == HEADER && FromBody(body, beyond).Some?
    ensures var w := FromBody(body, beyond).value;
            |w.key| < 256 && |w.value| < 0x1_0000_0000 && body == Layout(w, body[1..4])
  {
    FromBodyIff(body, beyond);
    LimitWidths();
    var w := FromBody(body, beyond).value;
    BigRoundTripBack(body[4..8]);
    assert body == [body[0]] + body[1..4] + body[4..8] + body[8..];
  }

  lemma {:induction false} BigRoundTripBack(bs: seq<byte>)
    ensures Big(|bs|, FromBig(bs)) == bs
  {
    if |bs| > 0 {
      BigRoundTripBack(bs[..|bs| - 1]);
      LowByte(FromBig(bs[..|bs| - 1]), bs[|bs| - 1] as nat);
    }
  }
}
