/**
  Strings of the BCL host: UTF-8 with encoded lone surrogates, indexed in UTF-16
  units (src/xxemul_dotnet_bcl.c, lines 189-262 and 1777-1812).  Section 3 of
  RFC 3629 and section 2 of RFC 2781.
*/
module Utf16Codec {
  import opened Wrappers
  import opened GuestMemory

  type Unit = u: nat | u < 0x1_0000

  predicate IsHigh(u: Unit) { 0xd800 <= u <= 0xdbff }
  predicate IsLow(u: Unit) { 0xdc00 <= u <= 0xdfff }

  // ----------------------------------------------------------------------
  // Encoding
  // ----------------------------------------------------------------------

  /** The bytes of a code point, surrogates included. */
  function EncodeOne(ch: nat): (b: seq<byte>)
    requires ch < 0x11_0000
    ensures 1 <= |b| <= 4 && (ch < 0x1_0000 ==> |b| <= 3)
  {
    if ch < 0x80 then [ch]
    else if ch < 0x800 then [0xc0 + ch / 0x40, 0x80 + ch % 0x40]
    else if ch < 0x1_0000 then [0xe0 + ch / 0x1000, 0x80 + ch / 0x40 % 0x40, 0x80 + ch % 0x40]
    else [0xf0 + ch / 0x4_0000, 0x80 + ch / 0x1000 % 0x40, 0x80 + ch / 0x40 % 0x40, 0x80 + ch % 0x40]
  }

  /** A high surrogate followed by a low one. */
  predicate StartsPair(u: seq<Unit>) {
    |u| >= 2 && IsHigh(u[0]) && IsLow(u[1])
  }

  function PairCode(high: Unit, low: Unit): (ch: nat)
    requires IsHigh(high) && IsLow(low)
    ensures 0x1_0000 <= ch < 0x11_0000
  {
    0x1_0000 + (high - 0xd800) * 0x400 + (low - 0xdc00)
  }

  /** The code point units begin with, and how many of them it takes. */
  function FirstCode(u: seq<Unit>): (r: (nat, nat))
    requires u != []
    ensures r.0 < 0x11_0000 && 1 <= r.1 <= |u| && r.1 <= 2 && (r.1 == 1 ==> r.0 < 0x1_0000)
  {
    if StartsPair(u) then (PairCode(u[0], u[1]), 2) else (u[0], 1)
  }

  /** units_to_text */
  function Encode(u: seq<Unit>): (b: seq<byte>)
    ensures |b| <= 3 * |u|
  {
    if u == [] then [] else EncodeOne(FirstCode(u).0) + Encode(u[FirstCode(u).1..])
  }

  // ----------------------------------------------------------------------
  // Decoding
  // ----------------------------------------------------------------------

  /** How many bytes follow a first byte above 0x7f; 0 for one that starts nothing. */
  function Need(first: byte): (n: nat)
    ensures n <= 3
  {
    if 0xc2 <= first <= 0xdf then 1 else if 0xe0 <= first <= 0xef then 2 else if 0xf0 <= first <= 0xf4 then 3 else 0
  }

  /** The bits of a first byte. */
  function FirstBits(first: byte, need: nat): nat {
    if need == 1 then first % 0x20 else if need == 2 then first % 0x10 else first % 8
  }

  /** Continuation bytes add six bits each. */
  function Continue(s: seq<byte>, need: nat, ch: nat): Option<nat>
    requires need <= |s|
  {
    if need == 0 then Some(ch)
    else if s[0] / 0x40 != 2 then None
    else Continue(s[1..], need - 1, ch * 0x40 + s[0] % 0x40)
  }

  predicate InRange(ch: nat, need: nat) {
    !((need == 1 && ch < 0x80) || (need == 2 && ch < 0x800) || (need == 3 && ch < 0x1_0000) || ch > 0x10_ffff)
  }

  /** The first code point of a text and the bytes it takes. */
  function DecodeOne(s: seq<byte>): (r: Option<(nat, nat)>)
    requires s != []
    ensures r.Some? ==> r.value.0 < 0x11_0000 && 1 <= r.value.1 <= |s|
  {
    if s[0] < 0x80 then Some((s[0], 1))
    else
      var need := Need(s[0]);
      if need == 0 || need > |s| - 1 then None
      else
        match Continue(s[1..], need, FirstBits(s[0], need))
        case None => None
        case Some(ch) => if InRange(ch, need) then Some((ch, need + 1)) else None
  }

  /** The units of a code point. */
  function UnitsOf(ch: nat): (u: seq<Unit>)
    requires ch < 0x11_0000
    ensures 1 <= |u| <= 2
  {
    if ch >= 0x1_0000 then [0xd800 + (ch - 0x1_0000) / 0x400, 0xdc00 + (ch - 0x1_0000) % 0x400] else [ch]
  }

  /** utf16_units */
  function Decode(s: seq<byte>): (r: Option<seq<Unit>>)
  {
    if s == [] then Some([])
    else
      match DecodeOne(s)
      case None => None
      case Some((ch, n)) =>
        match Decode(s[n..])
        case None => None
        case Some(rest) => Some(UnitsOf(ch) + rest)
  }

  // ----------------------------------------------------------------------
  // Round trip
  // ----------------------------------------------------------------------

  lemma ContinueOne(s: seq<byte>, ch: nat, low: nat)
    requires s != [] && low < 0x40 && s[0] == 0x80 + low
    ensures Continue(s, 1, ch) == Some(ch * 0x40 + low)
  {
  }

  lemma ContinueTwo(s: seq<byte>, ch: nat, b: nat, c: nat)
    requires |s| >= 2 && b < 0x40 && c < 0x40 && s[0] == 0x80 + b && s[1] == 0x80 + c
    ensures Continue(s, 2, ch) == Some((ch * 0x40 + b) * 0x40 + c)
  {
    ContinueOne(s[1..], ch * 0x40 + b, c);
  }

  lemma ContinueThree(s: seq<byte>, ch: nat, a: nat, b: nat, c: nat)
    requires |s| >= 3 && a < 0x40 && b < 0x40 && c < 0x40 && s[0] == 0x80 + a && s[1] == 0x80 + b && s[2] == 0x80 + c
    ensures Continue(s, 3, ch) == Some(((ch * 0x40 + a) * 0x40 + b) * 0x40 + c)
  {
    ContinueTwo(s[1..], ch * 0x40 + a, b, c);
  }

  lemma Digits(ch: nat)
    ensures ch == ch / 0x40 * 0x40 + ch % 0x40
    ensures ch / 0x40 == ch / 0x1000 * 0x40 + ch / 0x40 % 0x40
    ensures ch / 0x1000 == ch / 0x4_0000 * 0x40 + ch / 0x1000 % 0x40
  {
  }

  lemma DecodesTwo(ch: nat, rest: seq<byte>)
    requires 0x80 <= ch < 0x800
    ensures DecodeOne(EncodeOne(ch) + rest) == Some((ch, 2))
  {
    hide Continue;
    var s := EncodeOne(ch) + rest;
    assert s[0] == 0xc0 + ch / 0x40 && s[1..][0] == 0x80 + ch % 0x40;
    ContinueOne(s[1..], ch / 0x40, ch % 0x40);
  }

  lemma DecodesThree(ch: nat, rest: seq<byte>)
    requires 0x800 <= ch < 0x1_0000
    ensures DecodeOne(EncodeOne(ch) + rest) == Some((ch, 3))
  {
    hide Continue;
    var s := EncodeOne(ch) + rest;
    Digits(ch);
    assert s[0] == 0xe0 + ch / 0x1000 && s[1..][0] == 0x80 + ch / 0x40 % 0x40 && s[1..][1] == 0x80 + ch % 0x40;
    ContinueTwo(s[1..], ch / 0x1000, ch / 0x40 % 0x40, ch % 0x40);
  }

  lemma DecodesFour(ch: nat, rest: seq<byte>)
    requires 0x1_0000 <= ch < 0x11_0000
    ensures DecodeOne(EncodeOne(ch) + rest) == Some((ch, 4))
  {
    hide Continue;
    var s := EncodeOne(ch) + rest;
    Digits(ch);
    assert s[0] == 0xf0 + ch / 0x4_0000 && s[1..][0] == 0x80 + ch / 0x1000 % 0x40;
    assert s[1..][1] == 0x80 + ch / 0x40 % 0x40 && s[1..][2] == 0x80 + ch % 0x40;
    ContinueThree(s[1..], ch / 0x4_0000, ch / 0x1000 % 0x40, ch / 0x40 % 0x40, ch % 0x40);
  }

  /** A code point's bytes decode to it, whatever follows. */
  lemma DecodesOne(ch: nat, rest: seq<byte>)
    requires ch < 0x11_0000
    ensures DecodeOne(EncodeOne(ch) + rest) == Some((ch, |EncodeOne(ch)|))
  {
    hide Continue, Need, FirstBits, InRange;
    if 0x1_0000 <= ch {
      DecodesFour(ch, rest);
    } else if 0x800 <= ch {
      DecodesThree(ch, rest);
    } else if 0x80 <= ch {
      DecodesTwo(ch, rest);
    }
  }

  lemma UnitsOfFirst(u: seq<Unit>)
    requires u != []
    ensures UnitsOf(FirstCode(u).0) == u[..FirstCode(u).1]
  {
  }

  lemma Drop<T>(a: seq<T>, b: seq<T>)
    ensures (a + b)[|a|..] == b
  {
  }

  lemma Cut<T>(a: seq<T>, n: nat)
    requires n <= |a|
    ensures a[..n] + a[n..] == a
  {
  }

  lemma EncodeStep(u: seq<Unit>)
    requires u != []
    ensures Encode(u) == EncodeOne(FirstCode(u).0) + Encode(u[FirstCode(u).1..])
  {
    hide EncodeOne, FirstCode;
  }

  lemma DecodeStep(s: seq<byte>, ch: nat, n: nat)
    requires s != [] && ch < 0x11_0000 && n <= |s| && DecodeOne(s) == Some((ch, n))
    ensures Decode(s) == if Decode(s[n..]).None? then None else Some(UnitsOf(ch) + Decode(s[n..]).value)
  {
    hide DecodeOne, UnitsOf;
  }

  /** Encoding loses nothing, lone surrogates included. */
  lemma {:induction false} RoundTrip(u: seq<Unit>)
    ensures Decode(Encode(u)) == Some(u)
    decreases |u|
  {
    if u != [] {
      hide DecodeOne, EncodeOne, FirstCode, UnitsOf, Encode, Decode;
      var (ch, n) := FirstCode(u);
      var b, rest := EncodeOne(ch), Encode(u[n..]);
      EncodeStep(u);
      DecodesOne(ch, rest);
      Drop(b, rest);
      DecodeStep(b + rest, ch, |b|);
      RoundTrip(u[n..]);
      UnitsOfFirst(u);
      Cut(u, n);
    }
  }

  // ----------------------------------------------------------------------
  // Concatenation and slices
  // ----------------------------------------------------------------------

  lemma {:induction false} ContinuePrefix(s: seq<byte>, t: seq<byte>, need: nat, ch: nat)
    requires need <= |s|
    ensures Continue(s + t, need, ch) == Continue(s, need, ch)
    decreases need
  {
    if need > 0 {
      assert (s + t)[1..] == s[1..] + t;
      ContinuePrefix(s[1..], t, need - 1, ch * 0x40 + s[0] % 0x40);
    }
  }

  lemma DecodeOnePrefix(s: seq<byte>, t: seq<byte>)
    requires s != [] && DecodeOne(s).Some?
    ensures DecodeOne(s + t) == DecodeOne(s)
  {
    if s[0] >= 0x80 {
      assert (s + t)[1..] == s[1..] + t;
      ContinuePrefix(s[1..], t, Need(s[0]), FirstBits(s[0], Need(s[0])));
    }
  }

  lemma Regroup<T>(a: seq<T>, b: seq<T>, c: seq<T>)
    ensures (a + b) + c == a + (b + c)
  {
  }

  lemma DecodesFirst(s: seq<byte>)
    requires s != [] && Decode(s).Some?
    ensures DecodeOne(s).Some? && Decode(s[DecodeOne(s).value.1..]).Some?
  {
    hide DecodeOne, UnitsOf;
  }

  /** Decoding distributes over concatenation of texts. */
  lemma {:induction false} DecodeConcat(s: seq<byte>, t: seq<byte>)
    requires Decode(s).Some?
    ensures Decode(s + t) == if Decode(t).None? then None else Some(Decode(s).value + Decode(t).value)
    decreases |s|
  {
    if s == [] {
      assert s + t == t && Decode(s) == Some([]);
      hide Decode;
      if Decode(t).Some? {
        assert [] + Decode(t).value == Decode(t).value;
      }
    } else {
      DecodesFirst(s);
      hide DecodeOne, UnitsOf, Decode;
      DecodeOnePrefix(s, t);
      var (ch, n) := DecodeOne(s).value;
      assert (s + t)[n..] == s[n..] + t;
      DecodeStep(s, ch, n);
      DecodeStep(s + t, ch, n);
      DecodeConcat(s[n..], t);
      if Decode(t).Some? {
        Regroup(UnitsOf(ch), Decode(s[n..]).value, Decode(t).value);
      }
    }
  }

  /** Substring(i, n), when the bounds are right. */
  function Substring(s: seq<byte>, i: nat, n: nat): Option<seq<byte>> {
    match Decode(s)
    case None => None
    case Some(u) => if i + n <= |u| then Some(Encode(u[i..i + n])) else None
  }

  /** The two parts of a text, cut anywhere, have together the units of the whole, even when the cut splits a pair. */
  lemma SlicesKeepUnits(s: seq<byte>, k: nat)
    requires Decode(s).Some? && k <= |Decode(s).value|
    ensures var n := |Decode(s).value|;
            && Substring(s, 0, k).Some? && Substring(s, k, n - k).Some?
            && Decode(Substring(s, 0, k).value + Substring(s, k, n - k).value) == Decode(s)
  {
    hide Decode, Encode;
    var u := Decode(s).value;
    RoundTrip(u[..k]);
    RoundTrip(u[k..]);
    DecodeConcat(Encode(u[..k]), Encode(u[k..]));
    assert u[..k] + u[k..] == u && u[0..0 + k] == u[..k] && u[k..k + (|u| - k)] == u[k..];
  }

  /** The cut is between the halves of a pair. */
  predicate SplitsPair(u: seq<Unit>, v: seq<Unit>) {
    u != [] && v != [] && IsHigh(u[|u| - 1]) && IsLow(v[0])
  }

  lemma FirstOfConcat(u: seq<Unit>, v: seq<Unit>)
    requires u != [] && (|u| > 1 || !SplitsPair(u, v))
    ensures FirstCode(u + v) == FirstCode(u)
    ensures FirstCode(u).1 < |u| ==> SplitsPair(u, v) == SplitsPair(u[FirstCode(u).1..], v)
    ensures FirstCode(u).1 == |u| ==> !SplitsPair(u, v)
  {
  }

  /** Two halves of a pair that meet at the seam take two bytes more than the pair. */
  lemma {:induction false} ConcatLength(u: seq<Unit>, v: seq<Unit>)
    ensures |Encode(u)| + |Encode(v)| == |Encode(u + v)| + if SplitsPair(u, v) then 2 else 0
    decreases |u|
  {
    if u == [] {
      assert u + v == v && Encode(u) == [];
    } else if |u| == 1 && SplitsPair(u, v) {
      hide Encode;
      SeamBytes(u, v);
    } else {
      hide EncodeOne, FirstCode, SplitsPair, Encode;
      var (ch, n) := FirstCode(u);
      FirstOfConcat(u, v);
      var rest := u[n..];
      assert (u + v)[n..] == rest + v;
      EncodeStep(u);
      EncodeStep(u + v);
      EmptySeam(rest, v);
      ConcatLength(rest, v);
    }
  }

  /** Where no pair meets at the seam, concatenated texts encode the concatenated units. */
  lemma {:induction false} ConcatApart(u: seq<Unit>, v: seq<Unit>)
    requires !SplitsPair(u, v)
    ensures Encode(u) + Encode(v) == Encode(u + v)
    decreases |u|
  {
    if u == [] {
      assert u + v == v && Encode(u) == [];
      hide Encode;
      assert [] + Encode(v) == Encode(v);
    } else {
      hide EncodeOne, FirstCode, SplitsPair, Encode;
      var (ch, n) := FirstCode(u);
      FirstOfConcat(u, v);
      var rest := u[n..];
      assert (u + v)[n..] == rest + v;
      EncodeStep(u);
      EncodeStep(u + v);
      EmptySeam(rest, v);
      ConcatApart(rest, v);
      Regroup(EncodeOne(ch), Encode(rest), Encode(v));
    }
  }

  /**
    Concatenated texts are not encoded again: they are the encoding of the
    concatenated units exactly when no pair meets at the seam.
  */
  lemma ConcatIsCanonical(u: seq<Unit>, v: seq<Unit>)
    ensures Encode(u) + Encode(v) == Encode(u + v) <==> !SplitsPair(u, v)
  {
    hide Encode, SplitsPair;
    ConcatLength(u, v);
    if !SplitsPair(u, v) {
      ConcatApart(u, v);
    }
  }

  // ----------------------------------------------------------------------
  // Concatenation of any number of texts
  // ----------------------------------------------------------------------

  function Joined<T>(parts: seq<seq<T>>): seq<T> {
    if parts == [] then [] else Joined(parts[..|parts| - 1]) + parts[|parts| - 1]
  }

  function Texts(us: seq<seq<Unit>>): (ts: seq<seq<byte>>)
    ensures |ts| == |us|
  {
    seq(|us|, i requires 0 <= i < |us| => Encode(us[i]))
  }

  /** The number of items that complete a pair begun by the units before them. */
  function Seams(us: seq<seq<Unit>>): nat {
    if us == [] then 0
    else
      var n := |us| - 1;
      Seams(us[..n]) + if SplitsPair(Joined(us[..n]), us[n]) then 1 else 0
  }

  /**
    The joined texts of any items have the joined units of the items, and two
    bytes more than their encoding for each pair that meets at a seam; so they are
    the encoding exactly when none does.
  */
  lemma {:induction false} JoinedTextsExactly(us: seq<seq<Unit>>)
    ensures Decode(Joined(Texts(us))) == Some(Joined(us))
    ensures |Joined(Texts(us))| == |Encode(Joined(us))| + 2 * Seams(us)
    ensures Joined(Texts(us)) == Encode(Joined(us)) <==> Seams(us) == 0
  {
    if us == [] {
      assert Texts(us) == [];
    } else {
      hide Encode, Decode, SplitsPair;
      var n := |us| - 1;
      var u, v := Joined(us[..n]), us[n];
      assert Texts(us)[..n] == Texts(us[..n]);
      JoinedTextsExactly(us[..n]);
      RoundTrip(v);
      DecodeConcat(Joined(Texts(us[..n])), Encode(v));
      ConcatLength(u, v);
      if !SplitsPair(u, v) {
        ConcatApart(u, v);
      }
    }
  }

  lemma EmptySeam(u: seq<Unit>, v: seq<Unit>)
    ensures u == [] ==> !SplitsPair(u, v)
  {
  }

  /** A pair takes four bytes whole, and six in halves. */
  lemma SeamBytes(u: seq<Unit>, v: seq<Unit>)
    requires |u| == 1 && SplitsPair(u, v)
    ensures |Encode(u)| + |Encode(v)| == |Encode(u + v)| + 2
  {
    assert u[1..] == [] && Encode(u) == EncodeOne(u[0]);
    assert !StartsPair(v) && FirstCode(v) == (v[0], 1);
    assert FirstCode(u + v) == (PairCode(u[0], v[0]), 2) && (u + v)[2..] == v[1..];
  }

  // ----------------------------------------------------------------------
  // Length
  // ----------------------------------------------------------------------

  /** What get_Length counts for a byte. */
  function CountOf(b: byte): nat {
    if b / 0x40 == 2 then 0 else if b >= 0xf0 then 2 else 1
  }

  function Counted(s: seq<byte>): nat {
    if s == [] then 0 else CountOf(s[0]) + Counted(s[1..])
  }

  lemma {:induction false} CountedConcat(s: seq<byte>, t: seq<byte>)
    ensures Counted(s + t) == Counted(s) + Counted(t)
  {
    if s == [] {
      assert s + t == t;
    } else {
      assert (s + t)[1..] == s[1..] + t;
      CountedConcat(s[1..], t);
    }
  }

  /** Continuation bytes count nothing. */
  lemma {:induction false} ContinuationsCountNothing(s: seq<byte>, need: nat, ch: nat)
    requires need <= |s| && Continue(s, need, ch).Some?
    ensures Counted(s) == Counted(s[need..])
    ensures need == 1 ==> Continue(s, need, ch).value < ch * 0x40 + 0x40
    ensures need == 2 ==> Continue(s, need, ch).value < ch * 0x1000 + 0x1000
    decreases need
  {
    if need > 0 {
      ContinuationsCountNothing(s[1..], need - 1, ch * 0x40 + s[0] % 0x40);
      assert s[1..][need - 1..] == s[need..];
    } else {
      assert s[0..] == s;
    }
  }

  lemma FirstCounts(s: seq<byte>)
    requires s != [] && DecodeOne(s).Some?
    ensures Counted(s) == |UnitsOf(DecodeOne(s).value.0)| + Counted(s[DecodeOne(s).value.1..])
  {
    if s[0] >= 0x80 {
      var need := Need(s[0]);
      ContinuationsCountNothing(s[1..], need, FirstBits(s[0], need));
      assert s[1..][need..] == s[need + 1..];
    }
  }

  /** get_Length of a text is the number of its units. */
  lemma {:induction false} LengthIsUnits(s: seq<byte>)
    requires Decode(s).Some?
    ensures Counted(s) == |Decode(s).value|
    decreases |s|
  {
    if s != [] {
      hide DecodeOne, UnitsOf;
      FirstCounts(s);
      LengthIsUnits(s[DecodeOne(s).value.1..]);
    }
  }
}
