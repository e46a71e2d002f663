/** The Manchester line encoder of `manchesterCodeGenerator.codeToManchester`.

    Each source bit becomes two line symbols, one per half bit period:
    bit 0 becomes (0, 1), a low-to-high transition, and bit 1 becomes (1, 0),
    a high-to-low transition (the G. E. Thomas polarity). The pairs are
    concatenated in input order. Any element other than 0 or 1 makes the whole
    encoding fail with `None`; no partial output is ever returned. */
module Manchester {

  import opened Wrappers

  /** A value the encoder accepts as a source bit, and a line symbol. */
  predicate IsBit(x: int) {
    x == 0 || x == 1
  }

  /** Every element is a bit. */
  predicate IsBitSequence(s: seq<int>) {
    forall i :: 0 <= i < |s| ==> IsBit(s[i])
  }

  /** The two half-period symbols for one bit: the first equals the bit,
      the second is its complement. */
  function SymbolPair(b: int): (p: seq<int>)
    requires IsBit(b)
    ensures |p| == 2 && p[0] == b && p[1] == 1 - b
  {
    if b == 0 then [0, 1] else [1, 0]
  }

  /** The specification of the encoder. It succeeds exactly on bit sequences,
      and then doubles the length. */
  function Encode(s: seq<int>): (r: Option<seq<int>>)
    ensures r.Some? <==> IsBitSequence(s)
    ensures r.Some? ==> |r.value| == 2 * |s|
  {
    if s == [] then Some([])
    else if !IsBit(s[0]) then
      None
    else
      assert IsBitSequence(s) <==> IsBitSequence(s[1..]) by {
        if IsBitSequence(s[1..]) {
          forall i | 0 <= i < |s| ensures IsBit(s[i]) {
            if i > 0 { assert s[i] == s[1..][i - 1]; }
          }
        }
      }
      match Encode(s[1..])
      case None => None
      case Some(rest) => Some(SymbolPair(s[0]) + rest)
  }

  /** Proof helper: the definition of `Encode` unfolded for one leading
      element. A leading bit contributes its pair in front of
      the encoding of the rest; a leading non-bit makes the result `None`. */
  lemma EncodeCons(x: int, rest: seq<int>)
    ensures Encode([x] + rest) ==
      if IsBit(x) && Encode(rest).Some? then Some(SymbolPair(x) + Encode(rest).value) else None
  {
    var s := [x] + rest;
    assert s != [] && s[0] == x && s[1..] == rest;
  }

  /** Joins two encoder results: the join fails as soon as either part does. */
  function Join(a: Option<seq<int>>, b: Option<seq<int>>): Option<seq<int>> {
    match (a, b)
    case (Some(x), Some(y)) => Some(x + y)
    case _ => None
  }

  /** Order preservation and compositionality: encoding a concatenation is the
      concatenation of the encodings, and fails exactly when either part fails. */
  lemma {:induction false} EncodeConcat(a: seq<int>, b: seq<int>)
    ensures Encode(a + b) == Join(Encode(a), Encode(b))
  {
    if a == [] {
      assert a + b == b;
      if Encode(b).Some? {
        assert [] + Encode(b).value == Encode(b).value;
      }
    } else {
      assert (a + b)[0] == a[0];
      assert (a + b)[1..] == a[1..] + b;
      EncodeConcat(a[1..], b);
      if IsBit(a[0]) && Encode(a[1..]).Some? && Encode(b).Some? {
        assert SymbolPair(a[0]) + (Encode(a[1..]).value + Encode(b).value)
            == (SymbolPair(a[0]) + Encode(a[1..]).value) + Encode(b).value;
      }
    }
  }

  /** The pair for bit `s[i]` occupies output positions `2i` and `2i + 1`:
      0 gives (0, 1) and 1 gives (1, 0). */
  lemma {:induction false} EncodeAt(s: seq<int>, i: int)
    requires IsBitSequence(s) && 0 <= i < |s|
    ensures Encode(s).Some? && |Encode(s).value| == 2 * |s|
    ensures s[i] == 0 ==> Encode(s).value[2 * i] == 0 && Encode(s).value[2 * i + 1] == 1
    ensures s[i] == 1 ==> Encode(s).value[2 * i] == 1 && Encode(s).value[2 * i + 1] == 0
  {
    assert IsBit(s[0]);
    if i > 0 {
      assert IsBitSequence(s[1..]) by {
        forall j | 0 <= j < |s[1..]| ensures IsBit(s[1..][j]) {
          assert s[1..][j] == s[j + 1];
        }
      }
      EncodeAt(s[1..], i - 1);
      assert s[1..][i - 1] == s[i];
    }
  }

  /** On valid input every output symbol is a bit, and the two symbols of each
      pair differ, so every bit period carries a transition. */
  lemma {:induction false} EncodeSymbols(s: seq<int>)
    requires IsBitSequence(s)
    ensures Encode(s).Some?
    ensures IsBitSequence(Encode(s).value)
    ensures forall j :: 0 <= j < |Encode(s).value| - 1 && j % 2 == 0 ==>
      Encode(s).value[j] != Encode(s).value[j + 1]
  {
    var m := Encode(s).value;
    forall j | 0 <= j < |m| ensures IsBit(m[j]) {
      EncodeAt(s, j / 2);
      assert j == 2 * (j / 2) || j == 2 * (j / 2) + 1;
    }
    forall j | 0 <= j < |m| - 1 && j % 2 == 0 ensures m[j] != m[j + 1] {
      EncodeAt(s, j / 2);
      assert j == 2 * (j / 2);
    }
  }

  /** All or nothing: once an element that is not a bit follows a prefix that
      did encode, the whole result is `None` and the encoded prefix is dropped. */
  lemma AllOrNothing(s: seq<int>, k: int)
    requires 0 <= k < |s| && IsBitSequence(s[..k]) && !IsBit(s[k])
    ensures Encode(s[..k]).Some?
    ensures Encode(s) == None
  {
  }

  /** The empty input encodes to the empty sequence; it is not a failure. */
  lemma EncodeEmpty()
    ensures Encode([]) == Some([])
  {
  }

  /** Worked examples: a four-bit sequence, and a lone non-bit value. */
  lemma EncodeExamples()
    ensures Encode([0, 1, 1, 0]) == Some([0, 1, 1, 0, 1, 0, 0, 1])
    ensures Encode([2]) == None
  {
    EncodeCons(0, []);
    EncodeCons(1, [0]);
    EncodeCons(1, [1, 0]);
    EncodeCons(0, [1, 1, 0]);
    EncodeCons(2, []);
    assert [0] + [] == [0] && [1] + [0] == [1, 0];
    assert [1] + [1, 0] == [1, 1, 0] && [0] + [1, 1, 0] == [0, 1, 1, 0];
    assert [2] + [] == [2];
    assert SymbolPair(0) + [] == [0, 1];
    assert SymbolPair(1) + [0, 1] == [1, 0, 0, 1];
    assert SymbolPair(1) + [1, 0, 0, 1] == [1, 0, 1, 0, 0, 1];
    assert SymbolPair(0) + [1, 0, 1, 0, 0, 1] == [0, 1, 1, 0, 1, 0, 0, 1];
  }

  /** Reads a symbol sequence back pair by pair: (0, 1) is bit 0 and (1, 0) is
      bit 1; an odd length or any other pair is not a Manchester sequence. */
  function Decode(m: seq<int>): (r: Option<seq<int>>)
    ensures r.Some? ==> |m| == 2 * |r.value| && IsBitSequence(r.value)
    decreases |m|
  {
    if m == [] then Some([])
    else if |m| < 2 then None
    else if m[..2] == [0, 1] then PrependBit(0, Decode(m[2..]))
    else if m[..2] == [1, 0] then PrependBit(1, Decode(m[2..]))
    else None
  }

  /** Puts a decoded bit in front of the decoding of the remaining pairs. */
  function PrependBit(bit: int, rest: Option<seq<int>>): (r: Option<seq<int>>)
    requires IsBit(bit)
    requires rest.Some? ==> IsBitSequence(rest.value)
    ensures r.Some? <==> rest.Some?
    ensures r.Some? ==> r.value == [bit] + rest.value && IsBitSequence(r.value)
  {
    match rest
    case None => None
    case Some(bits) =>
      assert forall i :: 0 < i <= |bits| ==> ([bit] + bits)[i] == bits[i - 1];
      Some([bit] + bits)
  }

  /** Round trip: decoding the encoding of a bit sequence gives it back. */
  lemma {:induction false} DecodeEncode(s: seq<int>)
    requires IsBitSequence(s)
    ensures Decode(Encode(s).value) == Some(s)
  {
    if s != [] {
      assert IsBit(s[0]);
      assert IsBitSequence(s[1..]) by {
        forall j | 0 <= j < |s[1..]| ensures IsBit(s[1..][j]) {
          assert s[1..][j] == s[j + 1];
        }
      }
      DecodeEncode(s[1..]);
      var m := Encode(s).value;
      assert m == SymbolPair(s[0]) + Encode(s[1..]).value;
      assert m[2..] == Encode(s[1..]).value;
      assert [s[0]] + s[1..] == s;
    }
  }

  /** The other direction: whatever decodes is exactly the encoding of what it
      decodes to, so `Decode` inverts `Encode` on all of its image and no more. */
  lemma {:induction false} EncodeDecode(m: seq<int>)
    requires Decode(m).Some?
    ensures Encode(Decode(m).value) == Some(m)
  {
    if m != [] {
      var rest := Decode(m[2..]);
      var bit := if m[..2] == [0, 1] then 0 else 1;
      assert m[..2] == SymbolPair(bit);
      assert Decode(m) == PrependBit(bit, rest);
      EncodeDecode(m[2..]);
      var s := Decode(m).value;
      assert s == [bit] + rest.value;
      EncodeCons(bit, rest.value);
      assert m == m[..2] + m[2..];
    }
  }

  /** The encoder `codeToManchester`: walks the input left to right, appends
      two symbols per bit, and returns `None` on the first element that is
      not a bit. */
  method CodeToManchester(sequence: seq<int>) returns (r: Option<seq<int>>)
    ensures r == Encode(sequence)
  {
    var newSequence: seq<int> := [];
    for i := 0 to |sequence|
      invariant Encode(sequence[..i]) == Some(newSequence)
    {
      var x := sequence[i];
      assert sequence[..i + 1] == sequence[..i] + [x];
      EncodeConcat(sequence[..i], [x]);
      EncodeCons(x, []);
      assert [x] + [] == [x];
      assert IsBit(x) ==> SymbolPair(x) + [] == SymbolPair(x);
      if x == 0 {
        assert newSequence + [0] + [1] == newSequence + SymbolPair(x);
        newSequence := newSequence + [0];
        newSequence := newSequence + [1];
      } else if x == 1 {
        assert newSequence + [1] + [0] == newSequence + SymbolPair(x);
        newSequence := newSequence + [1];
        newSequence := newSequence + [0];
      } else {
        assert sequence == sequence[..i + 1] + sequence[i + 1..];
        EncodeConcat(sequence[..i + 1], sequence[i + 1..]);
        return None;
      }
    }
    assert sequence[..|sequence|] == sequence;
    return Some(newSequence);
  }
}
