/**
  The string operations of the BCL host that work in UTF-16 units, on buffers
  filled by index (src/xxemul_dotnet_bcl.c, lines 189-262 and 1777-1812).
*/
module Utf16Strings {
  import opened Wrappers
  import opened GuestMemory
  import opened Utf16Codec

  /** Units decoded so far, and what the rest of the text decodes to. */
  function After(u: seq<Unit>, rest: Option<seq<Unit>>): Option<seq<Unit>> {
    if rest.None? then None else Some(u + rest.value)
  }

  lemma AfterNothing(s: seq<byte>, u: seq<Unit>)
    requires u == []
    ensures s[0..] == s && After(u, Decode(s)) == Decode(s)
  {
    hide Decode;
    if Decode(s).Some? {
      assert u + Decode(s).value == Decode(s).value;
    }
  }

  /** The code point at an index, and the index after it. */
  method DecodePoint(s: seq<byte>, at: nat) returns (point: Option<(nat, nat)>)
    requires at < |s|
    ensures point == match DecodeOne(s[at..])
                     case None => None
                     case Some((ch, n)) => Some((ch, at + n))
  {
    hide InRange, FirstBits;
    var first := s[at];
    if first < 0x80 {
      return Some((first as nat, at + 1));
    }
    var need := Need(first);
    if need == 0 || need > |s| - (at + 1) {
      return None;
    }
    var ch: nat := FirstBits(first, need);
    var next := at + 1;
    ghost var whole := Continue(s[at..][1..], need, ch);
    assert s[at..][1..] == s[next..];
    for j := 0 to need
      invariant next == at + 1 + j && Continue(s[next..], need - j, ch) == whole
    {
      var b := s[next];
      assert s[next..][0] == b && s[next..][1..] == s[next + 1..];
      if b / 0x40 != 2 {
        return None;
      }
      ch := ch * 0x40 + b % 0x40;
      next := next + 1;
    }
    if !InRange(ch, need) {
      return None;
    }
    point := Some((ch, next));
  }

  lemma DecodeStuck(s: seq<byte>)
    requires s != [] && DecodeOne(s).None?
    ensures Decode(s).None?
  {
    hide DecodeOne;
  }

  /** Decoding from an index on, one code point at a time. */
  lemma DecodeAdvances(s: seq<byte>, at: nat, u: seq<Unit>, ch: nat, n: nat)
    requires at < |s| && DecodeOne(s[at..]) == Some((ch, n))
    ensures ch < 0x11_0000 && at + n <= |s| && After(u, Decode(s[at..])) == After(u + UnitsOf(ch), Decode(s[at + n..]))
  {
    hide Decode, UnitsOf;
    DecodeStep(s[at..], ch, n);
    assert s[at..][n..] == s[at + n..];
    if Decode(s[at + n..]).Some? {
      Regroup(u, UnitsOf(ch), Decode(s[at + n..]).value);
    }
  }

  /** utf16_units; a buffer of one unit for each byte never overflows. */
  method Utf16Units(s: seq<byte>) returns (status: Status, units: array<Unit>, count: nat)
    ensures status == if Decode(s).Some? then Ok else DecodeError
    ensures count <= units.Length && (status == Ok ==> Decode(s) == Some(units[..count]))
    ensures fresh(units)
  {
    hide Decode, DecodeOne;
    units := new Unit[|s| + 1];
    count := 0;
    var at: nat := 0;
    AfterNothing(s, units[..0]);
    while at < |s|
      invariant at <= |s| && count <= at
      invariant After(units[..count], Decode(s[at..])) == Decode(s)
    {
      var point := DecodePoint(s, at);
      if point.None? {
        DecodeStuck(s[at..]);
        return DecodeError, units, 0;
      }
      var (ch, next) := point.value;
      ghost var before := units[..count];
      DecodeAdvances(s, at, before, ch, next - at);
      LongCodesAreLong(s[at..]);
      if ch >= 0x1_0000 {
        units[count], units[count + 1] := 0xd800 + (ch - 0x1_0000) / 0x400, 0xdc00 + (ch - 0x1_0000) % 0x400;
        assert units[..count + 2] == before + UnitsOf(ch);
        count := count + 2;
      } else {
        units[count] := ch;
        assert units[..count + 1] == before + UnitsOf(ch);
        count := count + 1;
      }
      at := next;
    }
    assert s[at..] == [];
    DecodeNothing(s[at..]);
    assert units[..count] + [] == units[..count];
    status := Ok;
  }

  lemma DecodeNothing(s: seq<byte>)
    requires s == []
    ensures Decode(s) == Some([])
  {
  }

  /** A code point of two units takes at least two bytes. */
  lemma LongCodesAreLong(s: seq<byte>)
    requires s != [] && DecodeOne(s).Some?
    ensures DecodeOne(s).value.0 >= 0x1_0000 ==> DecodeOne(s).value.1 >= 2
  {
  }

  /** Put the bytes of a code point at an index. */
  method PutPoint(text: array<byte>, at: nat, ch: nat) returns (next: nat)
    requires ch < 0x11_0000 && at + |EncodeOne(ch)| <= text.Length
    modifies text
    ensures next == at + |EncodeOne(ch)| && text[..next] == old(text[..at]) + EncodeOne(ch)
  {
    if ch < 0x80 {
      text[at] := ch;
      next := at + 1;
    } else if ch < 0x800 {
      text[at], text[at + 1] := 0xc0 + ch / 0x40, 0x80 + ch % 0x40;
      next := at + 2;
    } else if ch < 0x1_0000 {
      text[at], text[at + 1], text[at + 2] := 0xe0 + ch / 0x1000, 0x80 + ch / 0x40 % 0x40, 0x80 + ch % 0x40;
      next := at + 3;
    } else {
      text[at], text[at + 1], text[at + 2], text[at + 3] :=
        0xf0 + ch / 0x4_0000, 0x80 + ch / 0x1000 % 0x40, 0x80 + ch / 0x40 % 0x40, 0x80 + ch % 0x40;
      next := at + 4;
    }
    assert text[..next] == old(text[..at]) + EncodeOne(ch);
  }

  lemma EncodeAdvances(u: seq<Unit>, i: nat, b: seq<byte>)
    requires i < |u|
    ensures var (ch, n) := FirstCode(u[i..]);
            && i + n <= |u| && (if StartsPair(u[i..]) then n == 2 else n == 1)
            && |EncodeOne(ch)| <= 3 * n
            && b + Encode(u[i..]) == (b + EncodeOne(ch)) + Encode(u[i + n..])
  {
    hide Encode, EncodeOne;
    EncodeStep(u[i..]);
    var (ch, n) := FirstCode(u[i..]);
    assert u[i..][n..] == u[i + n..];
    Regroup(b, EncodeOne(ch), Encode(u[i + n..]));
  }

  /** units_to_text; a buffer of three bytes for each unit never overflows. */
  method UnitsToText(u: seq<Unit>) returns (text: array<byte>, n: nat)
    ensures n <= text.Length && text[..n] == Encode(u) && fresh(text)
  {
    hide Encode, EncodeOne;
    text := new byte[|u| * 3 + 1];
    n := 0;
    var i := 0;
    assert u[0..] == u && text[..0] + Encode(u) == Encode(u);
    while i < |u|
      invariant i <= |u| && n <= 3 * i
      invariant text[..n] + Encode(u[i..]) == Encode(u)
    {
      ghost var before := text[..n];
      EncodeAdvances(u, i, before);
      var ch: nat := u[i];
      if IsHigh(u[i]) && i + 1 < |u| && IsLow(u[i + 1]) {
        ch := 0x1_0000 + (ch - 0xd800) * 0x400 + u[i + 1] - 0xdc00;
        i := i + 1;
      }
      n := PutPoint(text, n, ch);
      i := i + 1;
    }
    assert u[i..] == [];
    EncodeNothing(u[i..]);
    assert text[..n] + [] == text[..n];
  }

  lemma EncodeNothing(u: seq<Unit>)
    requires u == []
    ensures Encode(u) == []
  {
  }

  /** Concat: the buffer is grown by each item and the item copied to its end; limit bounds the bytes with their terminator. */
  method Concat(items: seq<seq<byte>>, limit: nat) returns (status: Status, text: array<byte>, total: nat)
    requires limit > 0
    ensures status == if |Joined(items)| < limit then Ok else LimitReached
    ensures status == Ok ==> total < text.Length && text[..total] == Joined(items) && text[total] == 0
    ensures fresh(text)
  {
    text, total, status := new byte[1](_ => 0), 0, Ok;
    for i := 0 to |items|
      invariant fresh(text) && total < text.Length && total < limit
      invariant text[..total] == Joined(items[..i]) && text[total] == 0
    {
      var part := items[i];
      assert items[..i + 1][..i] == items[..i];
      if |part| > limit - total - 1 {
        JoinedGrows(items, i + 1);
        return LimitReached, text, total;
      }
      var grown := new byte[total + |part| + 1](k => 0);
      forall k | 0 <= k < total {
        grown[k] := text[k];
      }
      forall k | 0 <= k < |part| {
        grown[total + k] := part[k];
      }
      assert grown[..total] == text[..total] && grown[total..total + |part|] == part;
      assert grown[..total + |part|] == grown[..total] + grown[total..total + |part|];
      text, total := grown, total + |part|;
    }
    assert items[..|items|] == items;
  }

  lemma {:induction false} JoinedGrows(items: seq<seq<byte>>, i: nat)
    requires i <= |items|
    ensures |Joined(items[..i])| <= |Joined(items)|
    decreases |items|
  {
    if i < |items| {
      JoinedGrows(items[..|items| - 1], i);
      assert items[..|items| - 1][..i] == items[..i];
    } else {
      assert items[..i] == items;
    }
  }

  /** get_Length counts first bytes; it does not decode. */
  method GetLength(s: seq<byte>) returns (units: nat)
    ensures units == Counted(s)
    ensures Decode(s).Some? ==> units == |Decode(s).value|
  {
    units := 0;
    for i := 0 to |s|
      invariant units == Counted(s[..i])
    {
      CountedConcat(s[..i], [s[i]]);
      assert s[..i + 1] == s[..i] + [s[i]] && [s[i]][1..] == [];
      if s[i] / 0x40 != 2 {
        units := units + if s[i] >= 0xf0 then 2 else 1;
      }
    }
    assert s[..|s|] == s;
    if Decode(s).Some? {
      LengthIsUnits(s);
    }
  }

  /** Substring with a start and, if it is given, a length; None is ArgumentOutOfRangeException. */
  method SubstringOf(s: seq<byte>, start: int, length: Option<int>) returns (status: Status, result: Option<seq<byte>>)
    ensures status == if Decode(s).Some? then Ok else DecodeError
    ensures status == Ok ==>
              var u := Decode(s).value;
              var n := if length.Some? then length.value else |u| - start;
              result == if 0 <= start <= |u| && 0 <= n <= |u| - start then Substring(s, start, n) else None
  {
    hide Decode, Encode;
    result := None;
    var units, count;
    status, units, count := Utf16Units(s);
    if status != Ok {
      return;
    }
    if start < 0 || start > count {
      return;
    }
    var n := if length.Some? then length.value else count - start;
    if n < 0 || n > count - start {
      return;
    }
    ghost var u := units[..count];
    assert u[start..start + n] == units[start..start + n];
    var text, size := UnitsToText(units[start..start + n]);
    result := Some(text[..size]);
  }
}
