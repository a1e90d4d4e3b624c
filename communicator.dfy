/** The build-time chunk size, the three stream kinds and the fixed-size
    `Message` frame that carries one chunk of captured bytes. */
module Communicator {
  import opened Prelude

  /** Chunk size used when BUFFER_SIZE is unset, empty or not a decimal number. */
  const DEFAULT_BUFFER_SIZE: nat := 8

  /** `usize::MAX` on a 64-bit target. */
  const USIZE_MAX: nat := 0xFFFF_FFFF_FFFF_FFFF

  const ASCII_ZERO: u8 := 0x30
  const ASCII_NINE: u8 := 0x39

  /** Outcome of evaluating `get_buffer_size` at compile time: a size, or a
      failed build because `r *= 10` or `r += d` overflowed `usize` inside the
      constant evaluation. */
  datatype BufferSize = Size(n: nat) | ConstEvalOverflow

  predicate IsDigit(b: u8) {
    ASCII_ZERO <= b <= ASCII_NINE
  }

  predicate AllDigits(s: seq<u8>) {
    forall i :: 0 <= i < |s| ==> IsDigit(s[i])
  }

  /** The decimal value of a string of ASCII digits, most significant first. */
  function Decimal(s: seq<u8>): nat
    requires AllDigits(s)
  {
    if s == [] then 0 else 10 * Decimal(s[..|s| - 1]) + (s[|s| - 1] - ASCII_ZERO) as nat
  }

  /** Length of the longest prefix of `s` made of digits. */
  function DigitRun(s: seq<u8>): (j: nat)
    ensures j <= |s| && AllDigits(s[..j])
    ensures j < |s| ==> !IsDigit(s[j])
  {
    if s == [] || !IsDigit(s[0]) then 0
    else
      var j := 1 + DigitRun(s[1..]);
      assert s[..j] == [s[0]] + s[1..][..j - 1];
      j
  }

  /** Leading zeros do not change a decimal value. */
  lemma {:induction false} DecimalLeadingZero(s: seq<u8>)
    requires AllDigits(s)
    ensures AllDigits([ASCII_ZERO] + s) && Decimal([ASCII_ZERO] + s) == Decimal(s)
  {
    var t := [ASCII_ZERO] + s;
    if s != [] {
      assert t[..|t| - 1] == [ASCII_ZERO] + s[..|s| - 1];
      DecimalLeadingZero(s[..|s| - 1]);
    }
  }

  /** A digit prefix never has a larger value than the whole digit string. */
  lemma {:induction false} DecimalPrefixBound(s: seq<u8>, k: nat)
    requires AllDigits(s) && k <= |s|
    ensures Decimal(s[..k]) <= Decimal(s)
  {
    if k < |s| {
      var init := s[..|s| - 1];
      assert AllDigits(init);
      assert s[..k] == init[..k];
      DecimalPrefixBound(init, k);
      assert Decimal(init) <= Decimal(s);
    } else {
      assert s[..k] == s;
    }
  }

  /** Decimal value of one more digit. */
  lemma DecimalSnoc(s: seq<u8>, i: nat)
    requires i < |s| && AllDigits(s[..i]) && IsDigit(s[i])
    ensures AllDigits(s[..i + 1])
    ensures Decimal(s[..i + 1]) == 10 * Decimal(s[..i]) + (s[i] - ASCII_ZERO) as nat
  {
    assert s[..i + 1][..i] == s[..i];
    assert forall k :: 0 <= k < i ==> s[..i + 1][k] == s[..i][k];
  }

  /** A prefix made of digits lies within the digit run. */
  lemma {:induction false} DigitRunCovers(s: seq<u8>, k: nat)
    requires k <= |s| && AllDigits(s[..k])
    ensures k <= DigitRun(s)
  {
    if k > 0 {
      assert IsDigit(s[..k][0]);
      assert s[1..][..k - 1] == s[..k][1..];
      DigitRunCovers(s[1..], k - 1);
    }
  }

  /** Once the digits read so far exceed `usize`, so do all digits before the
      first non-digit. */
  lemma OverflowPersists(s: seq<u8>, i: nat)
    requires i < |s| && AllDigits(s[..i + 1]) && Decimal(s[..i + 1]) > USIZE_MAX
    ensures Decimal(s[..DigitRun(s)]) > USIZE_MAX
  {
    var j := DigitRun(s);
    DigitRunCovers(s, i + 1);
    assert s[..j][..i + 1] == s[..i + 1];
    DecimalPrefixBound(s[..j], i + 1);
  }

  /** A digit prefix that stops at a non-digit is the whole digit run. */
  lemma DigitRunStopsAt(s: seq<u8>, i: nat)
    requires i < |s| && AllDigits(s[..i]) && !IsDigit(s[i])
    ensures DigitRun(s) == i
  {
  }

  /** `get_buffer_size`: the decimal value of the BUFFER_SIZE build variable,
      or DEFAULT_BUFFER_SIZE when it is absent, empty or holds a non-digit;
      the build fails when the digits read before the first non-digit exceed
      `usize`. `env` is the variable's value as bytes, None when unset. */
  method GetBufferSize(env: Option<seq<u8>>) returns (r: BufferSize)
    ensures env.None? ==> r == Size(DEFAULT_BUFFER_SIZE)
    ensures env == Some([]) ==> r == Size(DEFAULT_BUFFER_SIZE)
    ensures env.Some? ==>
      var s := env.value;
      var j := DigitRun(s);
      && (Decimal(s[..j]) > USIZE_MAX ==> r == ConstEvalOverflow)
      && (Decimal(s[..j]) <= USIZE_MAX && j < |s| ==> r == Size(DEFAULT_BUFFER_SIZE))
      && (Decimal(s[..j]) <= USIZE_MAX && j == |s| && s != [] ==> r == Size(Decimal(s)))
  {
    var s := if env.Some? then env.value else [];
    if |s| == 0 {
      return Size(DEFAULT_BUFFER_SIZE);
    }
    var acc: nat := 0;
    var i := 0;
    while i < |s|
      invariant 0 <= i <= |s|
      invariant AllDigits(s[..i])
      invariant acc == Decimal(s[..i]) <= USIZE_MAX
    {
      var ch := s[i];
      if ch < ASCII_ZERO || ch > ASCII_NINE {
        DigitRunStopsAt(s, i);
        return Size(DEFAULT_BUFFER_SIZE);
      }
      DecimalSnoc(s, i);
      if acc * 10 > USIZE_MAX || acc * 10 + (ch - ASCII_ZERO) as nat > USIZE_MAX {
        OverflowPersists(s, i);
        return ConstEvalOverflow;
      }
      acc := acc * 10;
      acc := acc + (ch - ASCII_ZERO) as nat;
      i := i + 1;
    }
    assert s[..i] == s;
    return Size(acc);
  }

  /** `DATA_BUFFER_SIZE` for the default build (BUFFER_SIZE unset), the value
      GetBufferSize(None) yields. */
  const DATA_BUFFER_SIZE: nat := DEFAULT_BUFFER_SIZE

  datatype StreamKind = Stdin | Stdout | Stderr

  /** `Message`: a stream kind, a DATA_BUFFER_SIZE byte array and the number of
      bytes of it in use. */
  datatype Message = Message(kind: StreamKind, data: seq<u8>, len: nat)

  predicate ValidMessage(m: Message) {
    |m.data| == DATA_BUFFER_SIZE && m.len <= DATA_BUFFER_SIZE
  }

  /** The bytes a message carries. */
  function Payload(m: Message): seq<u8>
    requires ValidMessage(m)
  {
    m.data[..m.len]
  }

  /** `Message::new`: the chunk is copied into the front of a zeroed array of
      DATA_BUFFER_SIZE bytes; a chunk longer than that fails the source's
      assertion, so callers must not pass one. */
  method NewMessage(kind: StreamKind, chunk: seq<u8>) returns (m: Message)
    requires |chunk| <= DATA_BUFFER_SIZE
    ensures ValidMessage(m)
    ensures m.kind == kind
    ensures m.len == |chunk| && Payload(m) == chunk
    ensures forall i :: m.len <= i < DATA_BUFFER_SIZE ==> m.data[i] == 0
  {
    var len := |chunk|;
    var data := new u8[DATA_BUFFER_SIZE](_ => 0);
    var i := 0;
    while i < len
      invariant 0 <= i <= len
      invariant forall k :: 0 <= k < i ==> data[k] == chunk[k]
      invariant forall k :: len <= k < DATA_BUFFER_SIZE ==> data[k] == 0
    {
      data[i] := chunk[i];
      i := i + 1;
    }
    m := Message(kind, data[..], len);
  }
}
