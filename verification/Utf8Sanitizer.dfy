/** The in-place UTF-8 sanitiser (gui/ui_render.c, sanitize_utf8_inplace), against the encoding that
  * sections 3 and 4 of RFC 3629 define.
  */
module Utf8Sanitizer {
  type Byte = b: int | 0 <= b < 256

  const QUESTION: Byte := 63

  /* ---------- RFC 3629 ---------- */

  // A Unicode scalar value: a code point that is not a surrogate.
  predicate IsScalar(c: int) {
    0 <= c <= 0x10FFFF && !(0xD800 <= c <= 0xDFFF)
  }

  // The shortest-form encoding.
  function Encode(c: int): (e: seq<Byte>)
    requires IsScalar(c)
    ensures 1 <= |e| <= 4
  {
    if c < 0x80 then [c]
    else if c < 0x800 then [0xC0 + c / 64, 0x80 + c % 64]
    else if c < 0x10000 then [0xE0 + c / 4096, 0x80 + c / 64 % 64, 0x80 + c % 64]
    else [0xF0 + c / 262144, 0x80 + c / 4096 % 64, 0x80 + c / 64 % 64, 0x80 + c % 64]
  }

  predicate AllScalar(cs: seq<int>) {
    forall i :: 0 <= i < |cs| ==> IsScalar(cs[i])
  }

  function EncodeAll(cs: seq<int>): seq<Byte>
    requires AllScalar(cs)
  {
    if cs == [] then [] else Encode(cs[0]) + EncodeAll(cs[1..])
  }

  // Well-formed UTF-8: the encoding of some sequence of scalar values.
  ghost predicate WellFormed(s: seq<Byte>) {
    exists cs :: AllScalar(cs) && s == EncodeAll(cs)
  }

  /* ---------- the decoder ---------- */

  // The length a lead byte announces, or 0.
  function LengthOf(c: Byte): (n: nat)
    ensures n <= 4
  {
    if c < 0x80 then 1
    else if 0xC2 <= c <= 0xDF then 2
    else if 0xE0 <= c <= 0xEF then 3
    else if 0xF0 <= c <= 0xF4 then 4
    else 0
  }

  // (b & 0xC0) == 0x80
  predicate IsContinuation(b: Byte) {
    b / 64 == 2
  }

  predicate ContinuationsFrom(s: seq<Byte>, k: nat, len: nat)
    requires len <= |s|
    decreases len - k
  {
    k >= len || (IsContinuation(s[k]) && ContinuationsFrom(s, k + 1, len))
  }

  // The second bytes that would make the encoding overlong, a surrogate, or too large.
  predicate SecondByteOk(c: Byte, second: Byte) {
    !(c == 0xE0 && second < 0xA0) && !(c == 0xED && second > 0x9F) &&
    !(c == 0xF0 && second < 0x90) && !(c == 0xF4 && second > 0x8F)
  }

  // The length of the valid sequence at the start of s, or 0.
  function Accepts(s: seq<Byte>): (n: nat)
    requires s != []
    ensures n <= |s| && n <= 4
  {
    var len := LengthOf(s[0]);
    if len >= 1 && len <= |s| && ContinuationsFrom(s, 1, len) && (len >= 3 ==> SecondByteOk(s[0], s[1])) then len else 0
  }

  // The scalar value of an accepted sequence.
  function CodeOf(s: seq<Byte>): int
    requires s != [] && Accepts(s) > 0
  {
    match Accepts(s)
    case 1 => s[0]
    case 2 => Joined(s[0] - 0xC0, s[1])
    case 3 => Joined(Joined(s[0] - 0xE0, s[1]), s[2])
    case _ => Joined(Joined(Joined(s[0] - 0xF0, s[1]), s[2]), s[3])
  }

  // Appends a continuation byte's six bits.
  function Joined(high: int, b: Byte): int {
    high * 64 + (b - 0x80)
  }

  // The result: valid sequences kept, every other byte replaced.
  function Sanitized(s: seq<Byte>): (r: seq<Byte>)
    ensures |r| == |s|
    decreases |s|
  {
    if s == [] then []
    else
      var n := Accepts(s);
      if n > 0 then s[..n] + Sanitized(s[n..]) else [QUESTION] + Sanitized(s[1..])
  }

  /* ---------- the decoder accepts exactly the encodings ---------- */

  lemma ContinuationsUpTo(s: seq<Byte>, len: nat)
    requires len <= |s| && len <= 4
    ensures ContinuationsFrom(s, 1, len) <==>
            (len > 1 ==> IsContinuation(s[1])) && (len > 2 ==> IsContinuation(s[2])) && (len > 3 ==> IsContinuation(s[3]))
  {
    assert len > 1 ==> ContinuationsFrom(s, 1, len) == (IsContinuation(s[1]) && ContinuationsFrom(s, 2, len));
    assert len > 2 ==> ContinuationsFrom(s, 2, len) == (IsContinuation(s[2]) && ContinuationsFrom(s, 3, len));
    assert len > 3 ==> ContinuationsFrom(s, 3, len) == (IsContinuation(s[3]) && ContinuationsFrom(s, 4, len));
  }

  // The announced length and what it demands of the bytes.
  lemma AcceptsMeans(s: seq<Byte>, len: nat)
    requires s != [] && len == LengthOf(s[0])
    ensures Accepts(s) > 0 <==>
            1 <= len <= |s| && (len > 1 ==> IsContinuation(s[1])) && (len > 2 ==> IsContinuation(s[2]) && SecondByteOk(s[0], s[1])) &&
            (len > 3 ==> IsContinuation(s[3]))
    ensures Accepts(s) > 0 ==> Accepts(s) == len
  {
    hide SecondByteOk;
    if len <= |s| {
      ContinuationsUpTo(s, len);
    }
  }

  lemma JoinedSplits(high: nat, b: Byte)
    requires IsContinuation(b)
    ensures Joined(high, b) / 64 == high && Joined(high, b) % 64 == b - 0x80
  {
  }

  lemma TwoBytes(a: Byte, b: Byte)
    requires 0xC2 <= a <= 0xDF && IsContinuation(b)
    ensures var c := Joined(a - 0xC0, b); IsScalar(c) && Encode(c) == [a, b]
  {
    JoinedSplits(a - 0xC0, b);
  }

  lemma ThreeBytes(a: Byte, b: Byte, d: Byte)
    requires 0xE0 <= a <= 0xEF && IsContinuation(b) && IsContinuation(d) && SecondByteOk(a, b)
    ensures var c := Joined(Joined(a - 0xE0, b), d); IsScalar(c) && Encode(c) == [a, b, d]
  {
    JoinedSplits(a - 0xE0, b);
    var m := Joined(a - 0xE0, b);
    JoinedSplits(m, d);
    var c := Joined(m, d);
    assert c / 4096 == m / 64;
  }

  lemma FourBytes(a: Byte, b: Byte, d: Byte, e: Byte)
    requires 0xF0 <= a <= 0xF4 && IsContinuation(b) && IsContinuation(d) && IsContinuation(e) && SecondByteOk(a, b)
    ensures var c := Joined(Joined(Joined(a - 0xF0, b), d), e); IsScalar(c) && Encode(c) == [a, b, d, e]
  {
    JoinedSplits(a - 0xF0, b);
    var m := Joined(a - 0xF0, b);
    JoinedSplits(m, d);
    var m' := Joined(m, d);
    JoinedSplits(m', e);
    var c := Joined(m', e);
    assert c / 4096 == m' / 64 && c / 262144 == m' / 4096 == m / 64;
  }

  // What is accepted is the shortest-form encoding of a scalar value.
  lemma AcceptedIsEncoding(s: seq<Byte>)
    requires s != [] && Accepts(s) > 0
    ensures IsScalar(CodeOf(s)) && Encode(CodeOf(s)) == s[..Accepts(s)]
  {
    AcceptsMeans(s, LengthOf(s[0]));
    var n := Accepts(s);
    hide Accepts, Encode, Joined;
    if n == 1 {
      OneByte(s[0]);
    } else if n == 2 {
      TwoBytes(s[0], s[1]);
    } else if n == 3 {
      ThreeBytes(s[0], s[1], s[2]);
    } else {
      FourBytes(s[0], s[1], s[2], s[3]);
    }
  }

  lemma OneByte(a: Byte)
    requires a < 0x80
    ensures IsScalar(a) && Encode(a) == [a]
  {
  }

  // The lead byte announces the length, the others are continuations, and the second is in range.
  lemma EncodingShape(c: int)
    requires IsScalar(c)
    ensures var e := Encode(c);
            LengthOf(e[0]) == |e| && (|e| > 1 ==> IsContinuation(e[1])) && (|e| > 2 ==> IsContinuation(e[2]) && SecondByteOk(e[0], e[1])) &&
            (|e| > 3 ==> IsContinuation(e[3]))
  {
    if 0x800 <= c < 0x10000 {
      assert c == c / 4096 * 4096 + c / 64 % 64 * 64 + c % 64;
    } else if 0x10000 <= c {
      assert c == c / 262144 * 262144 + c / 4096 % 64 * 4096 + c / 64 % 64 * 64 + c % 64;
    }
  }

  // Every scalar value's encoding is accepted, whatever follows it.
  lemma EncodingIsAccepted(c: int, rest: seq<Byte>)
    requires IsScalar(c)
    ensures Accepts(Encode(c) + rest) == |Encode(c)|
  {
    hide Accepts, Encode;
    var s := Encode(c) + rest;
    EncodingShape(c);
    assert forall k :: 0 <= k < |Encode(c)| ==> s[k] == Encode(c)[k];
    AcceptsMeans(s, |Encode(c)|);
  }

  /* ---------- what the sanitiser guarantees ---------- */

  // The text the output encodes: the decoded values, with U+003F for each byte that belongs to none.
  function Codes(s: seq<Byte>): (cs: seq<int>)
    ensures AllScalar(cs)
    decreases |s|
  {
    if s == [] then []
    else
      var n := Accepts(s);
      if n > 0 then
        AcceptedIsEncoding(s);
        [CodeOf(s)] + Codes(s[n..])
      else
        [63] + Codes(s[1..])
  }

  lemma {:induction false} SanitizedEncodes(s: seq<Byte>)
    ensures Sanitized(s) == EncodeAll(Codes(s))
    decreases |s|
  {
    hide Accepts, CodeOf, Encode;
    if s != [] {
      var n := Accepts(s);
      if n > 0 {
        AcceptedIsEncoding(s);
        SanitizedEncodes(s[n..]);
        assert Codes(s)[0] == CodeOf(s) && Codes(s)[1..] == Codes(s[n..]);
      } else {
        SanitizedEncodes(s[1..]);
        assert Codes(s)[0] == 63 && Codes(s)[1..] == Codes(s[1..]);
        QuestionEncodes();
      }
    }
  }

  lemma QuestionEncodes()
    ensures Encode(63) == [QUESTION]
  {
  }

  // Whatever the input, the output is well-formed UTF-8.
  lemma SanitizedIsWellFormed(s: seq<Byte>)
    ensures WellFormed(Sanitized(s))
  {
    SanitizedEncodes(s);
  }

  lemma {:induction false} EncodedIsKept(cs: seq<int>)
    requires AllScalar(cs)
    ensures Sanitized(EncodeAll(cs)) == EncodeAll(cs)
  {
    hide Accepts, Encode;
    if cs != [] {
      var rest := EncodeAll(cs[1..]);
      EncodingIsAccepted(cs[0], rest);
      EncodedIsKept(cs[1..]);
      assert (Encode(cs[0]) + rest)[|Encode(cs[0])|..] == rest;
    }
  }

  // The output equals the input exactly when the input was well-formed.
  lemma UnchangedIffWellFormed(s: seq<Byte>)
    ensures Sanitized(s) == s <==> WellFormed(s)
  {
    SanitizedIsWellFormed(s);
    if WellFormed(s) {
      var cs :| AllScalar(cs) && s == EncodeAll(cs);
      EncodedIsKept(cs);
    }
  }

  lemma SanitizedIdempotent(s: seq<Byte>)
    ensures Sanitized(Sanitized(s)) == Sanitized(s)
  {
    SanitizedIsWellFormed(s);
    UnchangedIffWellFormed(Sanitized(s));
  }

  // Every byte stays where it is or becomes '?'.
  lemma {:induction false} BytesKeptInPlace(s: seq<Byte>, k: nat)
    requires k < |s|
    ensures Sanitized(s)[k] == s[k] || Sanitized(s)[k] == QUESTION
    decreases |s|
  {
    hide Accepts;
    var n := Accepts(s);
    if n == 0 && k >= 1 {
      BytesKeptInPlace(s[1..], k - 1);
    } else if n > 0 && k >= n {
      BytesKeptInPlace(s[n..], k - n);
    }
  }

  // Acceptance looks at no more than the sequence itself.
  lemma AcceptsLocal(a: seq<Byte>, t: seq<Byte>)
    requires a != [] && (t == [] || !IsContinuation(t[0]))
    ensures Accepts(a + t) == Accepts(a)
  {
    hide ContinuationsFrom;
    var s, len := a + t, LengthOf(a[0]);
    if len <= |s| {
      ContinuationsUpTo(s, len);
      if len <= |a| {
        ContinuationsUpTo(a, len);
      } else {
        assert s[|a|] == t[0];
      }
    }
  }

  lemma {:induction false} SanitizedSplits(a: seq<Byte>, t: seq<Byte>)
    requires t == [] || !IsContinuation(t[0])
    ensures Sanitized(a + t) == Sanitized(a) + Sanitized(t)
    decreases |a|
  {
    hide Accepts;
    if a == [] {
      assert a + t == t;
    } else {
      AcceptsLocal(a, t);
      var n := if Accepts(a) > 0 then Accepts(a) else 1;
      assert (a + t)[..n] == a[..n] && (a + t)[n..] == a[n..] + t;
      SanitizedSplits(a[n..], t);
    }
  }

  // A valid character survives in the middle of any garbage: the parts around it are sanitised as if it
  // were not there.
  lemma CharacterSurvives(a: seq<Byte>, c: int, b: seq<Byte>)
    requires IsScalar(c)
    ensures Sanitized(a + Encode(c) + b) == Sanitized(a) + Encode(c) + Sanitized(b)
  {
    var t := Encode(c) + b;
    assert !IsContinuation(t[0]);
    EncodingIsAccepted(c, b);
    assert t[..|Encode(c)|] == Encode(c) && t[|Encode(c)|..] == b;
    assert a + Encode(c) + b == a + t;
    SanitizedSplits(a, t);
  }

  /* ---------- sanitize_utf8_inplace ---------- */

  // strlen
  method StrLen(s: array<Byte>) returns (n: nat)
    requires 0 in s[..]
    ensures n < s.Length && s[n] == 0 && 0 !in s[..n]
  {
    n := 0;
    while s[n] != 0
      invariant n < s.Length && 0 !in s[..n]
      decreases s.Length - n
    {
      n := n + 1;
      if n == s.Length {
        assert s[..n] == s[..];
      }
    }
  }

  // Whether a valid sequence of the length its lead byte announces starts at i.
  method SequenceOk(s: array<Byte>, i: nat, n: nat) returns (len: nat, ok: bool)
    requires i < n <= s.Length
    ensures if ok then len == Accepts(s[i..n]) > 0 else Accepts(s[i..n]) == 0
  {
    ghost var t := s[i..n];
    var c := s[i];
    len := LengthOf(c);
    ok := len >= 1 && i + len <= n;
    if !ok {
      return;
    }
    var k := 1;
    while ok && k < len
      invariant 1 <= k <= len
      invariant ContinuationsFrom(t, 1, len) <==> ok && ContinuationsFrom(t, k, len)
    {
      if !IsContinuation(s[i + k]) {
        ok := false;
      } else {
        k := k + 1;
      }
    }
    if ok && len == 3 && c == 0xE0 && s[i + 1] < 0xA0 {
      ok := false;
    }
    if ok && len == 3 && c == 0xED && s[i + 1] > 0x9F {
      ok := false;
    }
    if ok && len == 4 && c == 0xF0 && s[i + 1] < 0x90 {
      ok := false;
    }
    if ok && len == 4 && c == 0xF4 && s[i + 1] > 0x8F {
      ok := false;
    }
  }

  // Moves a sequence from the read index to the write index; the two being equal, nothing changes.
  method CopySequence(s: array<Byte>, i: nat, o: nat, len: nat) returns (o': nat)
    requires o == i && i + len <= s.Length
    modifies s
    ensures o' == o + len && s[..] == old(s[..])
  {
    o' := o;
    for k := 0 to len
      invariant o' == o + k
      invariant s[..] == old(s[..])
    {
      s[o'] := s[i + k];
      o' := o' + 1;
    }
  }

  // Sanitises the string in place, up to its terminator; what follows the terminator is left alone.
  method SanitizeInPlace(s: array<Byte>) returns (ghost n: nat)
    requires 0 in s[..]
    modifies s
    ensures n < s.Length && old(s[n]) == 0 && 0 !in old(s[..n])
    ensures s[..] == Sanitized(old(s[..n])) + old(s[n..])
  {
    hide Accepts, Sanitized;
    var len := StrLen(s);
    n := len;
    ghost var was := s[..];
    ghost var target := Sanitized(was[..len]);
    var i, o := 0, 0;
    assert was[0..len] == was[..len];
    while i < len
      // The write index is the read index: the output never overtakes the input.
      invariant o == i <= len
      invariant target[i..] == Sanitized(was[i..len])
      invariant forall k :: 0 <= k < i ==> s[k] == target[k]
      invariant forall k :: i <= k < s.Length ==> s[k] == was[k]
    {
      ghost var t := was[i..len];
      assert s[i..len] == t;
      SanitizedUnfolds(t);
      var seqLen, ok := SequenceOk(s, i, len);
      if ok {
        o := CopySequence(s, i, o, seqLen);
        TargetAdvances(target, was, i, len, seqLen, t[..seqLen]);
        i := i + seqLen;
      } else {
        s[o] := QUESTION;
        o := o + 1;
        TargetAdvances(target, was, i, len, 1, [QUESTION]);
        i := i + 1;
      }
    }
    s[o] := 0;
    assert s[..] == s[..len] + s[len..];
  }

  // One step of the loop: the next bytes of the target, and what remains of it.
  lemma TargetAdvances(target: seq<Byte>, was: seq<Byte>, i: nat, len: nat, n: nat, head: seq<Byte>)
    requires |target| == len <= |was| && i + n <= len && |head| == n
    requires target[i..] == head + Sanitized(was[i..len][n..])
    ensures target[i + n..] == Sanitized(was[i + n..len])
    ensures forall k :: i <= k < i + n ==> target[k] == head[k - i]
  {
    hide Sanitized;
    assert was[i..len][n..] == was[i + n..len];
    assert target[i..][n..] == target[i + n..];
    assert forall k :: i <= k < i + n ==> target[k] == target[i..][k - i];
  }

  lemma SanitizedUnfolds(s: seq<Byte>)
    ensures if s == [] then Sanitized(s) == []
            else if Accepts(s) > 0 then Sanitized(s) == s[..Accepts(s)] + Sanitized(s[Accepts(s)..])
            else Sanitized(s) == [QUESTION] + Sanitized(s[1..])
  {
  }
}
