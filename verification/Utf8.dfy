// Characters of up to 31 bits and their encoding in one to six bytes.
module Utf8 {

  predicate Char(c: int) {
    0 <= c <= 0x7fffffff
  }

  const LIMITS: seq<int> := [0x7f, 0x7ff, 0xffff, 0x1fffff, 0x3ffffff, 0x7fffffff]
  const LEADS: seq<int> := [0, 0xc0, 0xe0, 0xf0, 0xf8, 0xfc]
  const MASKS: seq<int> := [0x100, 0x20, 0x10, 0x08, 0x04, 0x02]

  // Bytes after a lead byte, by the six low bits of the lead byte.
  function Extra(low: int): (n: nat)
    requires 0 <= low < 64
    ensures 1 <= n <= 5
  {
    if low < 32 then 1 else if low < 48 then 2 else if low < 56 then 3 else if low < 60 then 4 else 5
  }

  // Putting a field into zero bits is addition, and masking is a remainder.
  lemma FieldsAreSums(x: bv8)
    ensures x < 0x40 ==> 0x80 | x == 0x80 + x
    ensures x < 0x20 ==> 0xc0 | x == 0xc0 + x
    ensures x < 0x10 ==> 0xe0 | x == 0xe0 + x
    ensures x < 0x08 ==> 0xf0 | x == 0xf0 + x
    ensures x < 0x04 ==> 0xf8 | x == 0xf8 + x
    ensures x < 0x02 ==> 0xfc | x == 0xfc + x
    ensures (x & 0xc0 == 0xc0) <==> x >= 0xc0
  {
  }

  // ---------- one character ----------

  function Width(c: int): (i: nat)
    requires Char(c)
    ensures i <= 5
  {
    if c <= 0x7f then 0 else if c <= 0x7ff then 1 else if c <= 0xffff then 2
    else if c <= 0x1fffff then 3 else if c <= 0x3ffffff then 4 else 5
  }

  // What is left of c after i groups of six bits.
  function Top(c: nat, i: nat): nat {
    if i == 0 then c else Top(c / 64, i - 1)
  }

  // The last i groups of six bits, one per byte.
  function Groups(c: nat, i: nat): (s: seq<int>)
    ensures |s| == i && forall k :: 0 <= k < i ==> 0x80 <= s[k] < 0xc0
  {
    if i == 0 then [] else Groups(c / 64, i - 1) + [0x80 + c % 64]
  }

  function Encode(c: int): (s: seq<int>)
    requires Char(c)
    ensures |s| == Width(c) + 1
  {
    [LEADS[Width(c)] + Top(c, Width(c))] + Groups(c, Width(c))
  }

  lemma TopBounds(c: nat)
    ensures Top(c, 1) == c / 64 && Top(c, 2) == c / 64 / 64 && Top(c, 3) == c / 64 / 64 / 64
    ensures Top(c, 4) == c / 64 / 64 / 64 / 64 && Top(c, 5) == c / 64 / 64 / 64 / 64 / 64
  {
    assert Top(c, 2) == Top(c / 64, 1);
    assert Top(c, 3) == Top(c / 64, 2) == Top(c / 64 / 64, 1);
    assert Top(c, 4) == Top(c / 64, 3) == Top(c / 64 / 64, 2) == Top(c / 64 / 64 / 64, 1);
    assert Top(c, 5) == Top(c / 64, 4) == Top(c / 64 / 64, 3) == Top(c / 64 / 64 / 64, 2)
        == Top(c / 64 / 64 / 64 / 64, 1);
  }

  // The table of section 2 of RFC 2279: ranges, lead bytes and fields of six bits.
  lemma OneByte(c: nat)
    requires c < 0x80
    ensures Encode(c) == [c]
  {
    assert Top(c, 0) == c && Groups(c, 0) == [];
  }

  // One more field at the end.
  lemma MoreFields(c: nat, x: nat, i: nat, n: nat)
    requires x < 64 && n == i + 1
    ensures Top(c * 64 + x, n) == Top(c, i) && Groups(c * 64 + x, n) == Groups(c, i) + [0x80 + x]
  {
    assert (c * 64 + x) / 64 == c && (c * 64 + x) % 64 == x;
  }

  lemma TwoBytes(a: nat, x: nat)
    requires x < 64 && 0x80 <= a * 64 + x < 0x800
    ensures Encode(a * 64 + x) == [0xc0 + a, 0x80 + x]
  {
    MoreFields(a, x, 0, 1);
  }

  lemma ThreeBytes(a: nat, x: nat, y: nat)
    requires x < 64 && y < 64 && 0x800 <= (a * 64 + x) * 64 + y < 0x10000
    ensures Encode((a * 64 + x) * 64 + y) == [0xe0 + a, 0x80 + x, 0x80 + y]
  {
    MoreFields(a, x, 0, 1);
    MoreFields(a * 64 + x, y, 1, 2);
  }

  lemma FourBytes(a: nat, x: nat, y: nat, z: nat)
    requires x < 64 && y < 64 && z < 64 && 0x10000 <= ((a * 64 + x) * 64 + y) * 64 + z < 0x200000
    ensures Encode(((a * 64 + x) * 64 + y) * 64 + z) == [0xf0 + a, 0x80 + x, 0x80 + y, 0x80 + z]
  {
    MoreFields(a, x, 0, 1);
    MoreFields(a * 64 + x, y, 1, 2);
    MoreFields((a * 64 + x) * 64 + y, z, 2, 3);
  }

  lemma FiveBytes(a: nat, x: nat, y: nat, z: nat, u: nat)
    requires x < 64 && y < 64 && z < 64 && u < 64
    requires 0x200000 <= (((a * 64 + x) * 64 + y) * 64 + z) * 64 + u < 0x4000000
    ensures Encode((((a * 64 + x) * 64 + y) * 64 + z) * 64 + u)
         == [0xf8 + a, 0x80 + x, 0x80 + y, 0x80 + z, 0x80 + u]
  {
    MoreFields(a, x, 0, 1);
    MoreFields(a * 64 + x, y, 1, 2);
    MoreFields((a * 64 + x) * 64 + y, z, 2, 3);
    MoreFields(((a * 64 + x) * 64 + y) * 64 + z, u, 3, 4);
  }

  lemma SixByteForm(a: nat, x: nat, y: nat, z: nat, u: nat, v: nat)
    requires x < 64 && y < 64 && z < 64 && u < 64 && v < 64
    requires 0x4000000 <= ((((a * 64 + x) * 64 + y) * 64 + z) * 64 + u) * 64 + v < 0x80000000
    ensures Encode(((((a * 64 + x) * 64 + y) * 64 + z) * 64 + u) * 64 + v)
         == [0xfc + a, 0x80 + x, 0x80 + y, 0x80 + z, 0x80 + u, 0x80 + v]
  {
    MoreFields(a, x, 0, 1);
    MoreFields(a * 64 + x, y, 1, 2);
    MoreFields((a * 64 + x) * 64 + y, z, 2, 3);
    MoreFields(((a * 64 + x) * 64 + y) * 64 + z, u, 3, 4);
    MoreFields((((a * 64 + x) * 64 + y) * 64 + z) * 64 + u, v, 4, 5);
  }

  // The lead byte tells how many bytes follow, and keeps its field apart.
  lemma LeadByte(c: int)
    requires Char(c)
    ensures var i := Width(c); var lead := LEADS[i] + Top(c, i);
            if i == 0 then lead == c < 0x80
            else 0xc0 <= lead < 0xfe && Extra(lead - 0xc0) == i && lead % MASKS[i] == Top(c, i)
  {
    TopBounds(c);
  }

  // The value of a field followed by groups of six bits.
  function Value(top: nat, s: seq<int>): int {
    if s == [] then top else Value(top, s[..|s| - 1]) * 64 + s[|s| - 1] % 64
  }

  lemma LastGroup(c: nat)
    ensures (0x80 + c % 64) % 64 == c % 64 && (c / 64) * 64 + c % 64 == c
  {
  }

  lemma ValueLast(top: nat, s: seq<int>, x: int)
    ensures Value(top, s + [x]) == Value(top, s) * 64 + x % 64
  {
    assert (s + [x])[..|s|] == s;
  }

  lemma {:induction false} GroupsValue(c: nat, i: nat)
    ensures Value(Top(c, i), Groups(c, i)) == c
  {
    if i > 0 {
      GroupsValue(c / 64, i - 1);
      ValueLast(Top(c, i), Groups(c / 64, i - 1), 0x80 + c % 64);
      LastGroup(c);
    }
  }

  lemma {:induction false} TopNext(c: nat, i: nat)
    ensures Top(c, i + 1) == Top(c, i) / 64
  {
    if i > 0 { TopNext(c / 64, i - 1); }
  }

  lemma {:induction false} GroupsAt(c: nat, i: nat, k: nat)
    requires k < i
    ensures Groups(c, i)[k] == 0x80 + Top(c, i - 1 - k) % 64
  {
    if k < i - 1 { GroupsAt(c / 64, i - 1, k); }
  }

  // ---------- strings ----------

  ghost predicate Chars(cs: seq<int>) {
    forall i :: 0 <= i < |cs| ==> Char(cs[i]) && cs[i] != 0
  }

  // Where character n starts.
  ghost function Start(cs: seq<int>, n: nat): nat
    requires Chars(cs) && n <= |cs|
  {
    if n == 0 then 0 else Start(cs, n - 1) + Width(cs[n - 1]) + 1
  }

  lemma {:induction false} StartGrows(cs: seq<int>, n: nat, m: nat)
    requires Chars(cs) && n <= m <= |cs|
    ensures Start(cs, n) + (m - n) <= Start(cs, m)
  {
    if n < m { StartGrows(cs, n, m - 1); }
  }

  // The bytes of character c are in the buffer from position at.
  ghost predicate CharAt(s: seq<int>, at: nat, c: int)
  {
    Char(c) && at + Width(c) < |s| && forall k :: 0 <= k <= Width(c) ==> s[at + k] == Encode(c)[k]
  }

  // The first n characters, from the beginning of the buffer.
  ghost predicate Holds(s: seq<int>, cs: seq<int>, n: nat)
    requires Chars(cs)
  {
    n <= |cs| && forall i {:trigger CharAt(s, Start(cs, i), cs[i])} :: 0 <= i < n ==> CharAt(s, Start(cs, i), cs[i])
  }

  // ... and a terminating zero.
  ghost predicate IsString(s: seq<int>, cs: seq<int>, n: nat)
    requires Chars(cs)
  {
    Holds(s, cs, n) && Start(cs, n) < |s| && s[Start(cs, n)] == 0
  }

  lemma FirstByte(s: seq<int>, at: nat, c: int)
    requires CharAt(s, at, c) && c != 0
    ensures s[at] != 0 && (s[at] >= 0xc0 <==> Width(c) > 0)
    ensures Width(c) > 0 ==> Extra(s[at] % 64) == Width(c) && s[at] % MASKS[Width(c)] == Top(c, Width(c))
    ensures Width(c) == 0 ==> s[at] == c
  {
    LeadByte(c);
    assert s[at + 0] == Encode(c)[0];
  }

  // ---------- encoding ----------

  method Extras(cvalue: int) returns (i: nat)
    requires Char(cvalue)
    ensures i == Width(cvalue)
  {
    i := 0;
    while i < 6
      invariant 0 <= i <= 5 && (i > 0 ==> cvalue > LIMITS[i - 1])
    {
      if cvalue <= LIMITS[i] {
        break;
      }
      i := i + 1;
    }
  }

  method WcharUtf8(cvalue: int, buffer: array<int>, at: nat) returns (len: nat)
    requires Char(cvalue) && at + Width(cvalue) < buffer.Length
    modifies buffer
    ensures len == Width(cvalue) + 1 && CharAt(buffer[..], at, cvalue)
    ensures forall k :: 0 <= k < buffer.Length && !(at <= k < at + len) ==> buffer[k] == old(buffer[k])
  {
    var i := Extras(cvalue);
    ghost var bytes := Encode(cvalue);
    var c, j := cvalue, i;
    var p := at + i;
    while j > 0
      invariant 0 <= j <= i && p == at + j && c == Top(cvalue, i - j)
      invariant forall k :: j < k <= i ==> buffer[at + k] == bytes[k]
      invariant forall k :: 0 <= k < buffer.Length && !(at <= k <= at + i) ==> buffer[k] == old(buffer[k])
    {
      GroupsAt(cvalue, i, j - 1);
      TopNext(cvalue, i - j);
      assert bytes[j] == Groups(cvalue, i)[j - 1];
      buffer[p] := 0x80 + c % 64;
      p := p - 1;
      c := c / 64;
      j := j - 1;
    }
    buffer[p] := LEADS[i] + c;
    len := i + 1;
  }

  // ---------- decoding ----------

  function Pow64(k: nat): nat {
    if k == 0 then 1 else 64 * Pow64(k - 1)
  }

  lemma AddGroup(v: int, g: int, p: int)
    ensures v * (64 * p) + g * p == (v * 64 + g) * p
  {
  }

  // c holds the field and k groups, shifted to make room for the groups to come.
  ghost predicate Read(c: int, top: nat, groups: seq<int>, k: nat, left: nat) {
    k + left == |groups| && c == Value(top, groups[..k]) * Pow64(left)
  }

  lemma ReadNone(top: nat, groups: seq<int>)
    ensures Read(top * Pow64(|groups|), top, groups, 0, |groups|)
  {
    assert groups[..0] == [];
  }

  lemma ReadNext(c: int, top: nat, groups: seq<int>, k: nat, left: nat)
    requires Read(c, top, groups, k, left) && left > 0
    ensures Read(c + (groups[k] % 64) * Pow64(left - 1), top, groups, k + 1, left - 1)
  {
    assert groups[..k + 1] == groups[..k] + [groups[k]];
    ValueLast(top, groups[..k], groups[k]);
    AddGroup(Value(top, groups[..k]), groups[k] % 64, Pow64(left - 1));
  }

  lemma ReadAll(c: int, top: nat, groups: seq<int>)
    requires Read(c, top, groups, |groups|, 0)
    ensures c == Value(top, groups)
  {
    assert groups[..|groups|] == groups;
    assert Pow64(0) == 1;
  }

  method ReadGroups(s: array<int>, p0: nat, gcaa: nat, field: nat, ghost groups: seq<int>) returns (c: int, p: nat)
    requires |groups| == gcaa && p0 + gcaa <= s.Length && forall k :: 0 <= k < gcaa ==> s[p0 + k] == groups[k]
    ensures c == Value(field, groups) && p == p0 + gcaa
  {
    var left := gcaa;
    var gcss := gcaa;
    p := p0;
    c := field * Pow64(gcss);
    ReadNone(field, groups);
    while left > 0
      invariant 0 <= left <= gcaa && gcss == left && p == p0 + (gcaa - left)
      invariant Read(c, field, groups, gcaa - left, left)
    {
      gcss := gcss - 1;
      ReadNext(c, field, groups, gcaa - left, left);
      assert s[p] == groups[gcaa - left];
      c := c + (s[p] % 64) * Pow64(gcss);
      p := p + 1;
      left := left - 1;
    }
    ReadAll(c, field, groups);
  }

  // The character at a position, and the position after it.
  method GetCharInc(s: array<int>, at: nat, ghost ch: int) returns (c: int, p: nat)
    requires CharAt(s[..], at, ch) && ch != 0
    ensures c == ch && p == at + Width(ch) + 1
  {
    FirstByte(s[..], at, ch);
    c := s[at];
    p := at + 1;
    if c >= 0xc0 {
      var gcaa := Extra(c % 64);
      ghost var groups := Groups(ch, gcaa);
      forall k | 0 <= k < gcaa ensures s[p + k] == groups[k] {
        assert s[at + (k + 1)] == Encode(ch)[k + 1];
      }
      c, p := ReadGroups(s, p, gcaa, c % MASKS[gcaa], groups);
      GroupsValue(ch, gcaa);
    }
  }

  // ---------- strings ----------

  lemma Next(s: seq<int>, cs: seq<int>, n: nat, i: nat)
    requires Chars(cs) && IsString(s, cs, n) && i <= n
    ensures Start(cs, i) < |s| && (s[Start(cs, i)] == 0 <==> i == n)
    ensures i < n ==> CharAt(s, Start(cs, i), cs[i]) && Start(cs, i + 1) == Start(cs, i) + Width(cs[i]) + 1
  {
    if i < n {
      assert CharAt(s, Start(cs, i), cs[i]);
      FirstByte(s, Start(cs, i), cs[i]);
    }
  }

  // Step over the character at p, whose first byte is c.
  method Skip(p: nat, c: int, ghost s: seq<int>, ghost cs: seq<int>, ghost n: nat, ghost i: nat) returns (p': nat)
    requires Chars(cs) && IsString(s, cs, n) && i < n && p == Start(cs, i) && p < |s| && s[p] == c
    ensures p' == Start(cs, i + 1)
  {
    assert CharAt(s, Start(cs, i), cs[i]);
    FirstByte(s, p, cs[i]);
    if c >= 0xc0 {
      p' := p + Extra(c % 64) + 1;
    } else {
      p' := p + 1;
    }
  }

  // The number of characters, as long as limit is not reached.
  method Utf8Wlen(s: array<int>, limit: int, ghost cs: seq<int>) returns (count: nat)
    requires Chars(cs) && IsString(s[..], cs, |cs|)
    ensures count <= |cs| && (count == |cs| || Start(cs, count) + 1 >= limit)
    ensures forall i :: 0 <= i < count ==> Start(cs, i) + 1 < limit
  {
    count := 0;
    var p := 0;
    Next(s[..], cs, |cs|, 0);
    while s[p] != 0 && p + 1 < limit
      invariant 0 <= count <= |cs| && p == Start(cs, count) && p < s.Length && (s[p] == 0 <==> count == |cs|)
      invariant forall i :: 0 <= i < count ==> Start(cs, i) + 1 < limit
      decreases |cs| - count
    {
      p := Skip(p, s[p], s[..], cs, |cs|, count);
      count := count + 1;
      Next(s[..], cs, |cs|, count);
    }
  }

  // The position after the first idx characters; past the end, or for a negative idx, the end.
  method Utf8Index(s: array<int>, idx: int, ghost cs: seq<int>) returns (p: nat)
    requires Chars(cs) && IsString(s[..], cs, |cs|)
    ensures if 0 <= idx < |cs| then p == Start(cs, idx) else p == Start(cs, |cs|)
  {
    ghost var i := 0;
    var left := idx;
    p := 0;
    Next(s[..], cs, |cs|, 0);
    while s[p] != 0 && left != 0
      invariant 0 <= i <= |cs| && p == Start(cs, i) && p < s.Length && (s[p] == 0 <==> i == |cs|)
      invariant left == idx - i && (idx >= 0 ==> left >= 0)
      decreases |cs| - i
    {
      left := left - 1;
      p := Skip(p, s[p], s[..], cs, |cs|, i);
      i := i + 1;
      Next(s[..], cs, |cs|, i);
    }
    assert i == if 0 <= idx < |cs| then idx else |cs|;
  }

  // Decode at most maxwc characters into a zero-terminated vector.
  method Utf8Wstr(unicode: array<int>, s: array<int>, maxwc: nat, ghost cs: seq<int>) returns (count: nat)
    requires Chars(cs) && IsString(s[..], cs, |cs|) && unicode != s
    requires unicode.Length > (if maxwc < |cs| then maxwc else |cs|)
    modifies unicode
    ensures count == if maxwc < |cs| then maxwc else |cs|
    ensures unicode[count] == 0 && forall i :: 0 <= i < count ==> unicode[i] == cs[i]
  {
    count := 0;
    var p, left := 0, maxwc;
    Next(s[..], cs, |cs|, 0);
    while left != 0 && s[p] != 0
      invariant 0 <= count <= |cs| && left == maxwc - count && left >= 0
      invariant p == Start(cs, count) && p < s.Length && (s[p] == 0 <==> count == |cs|)
      invariant IsString(s[..], cs, |cs|) && forall i :: 0 <= i < count ==> unicode[i] == cs[i]
      decreases |cs| - count
    {
      left := left - 1;
      var wchar;
      wchar, p := GetCharInc(s, p, cs[count]);
      unicode[count] := wchar;
      count := count + 1;
      Next(s[..], cs, |cs|, count);
    }
    unicode[count] := 0;
  }

  lemma HoldsKept(s: seq<int>, s': seq<int>, cs: seq<int>, n: nat, size: nat)
    requires Chars(cs) && Holds(s, cs, n) && size == Start(cs, n) && |s'| == |s|
    requires forall k :: 0 <= k < size && k < |s| ==> s'[k] == s[k]
    ensures Holds(s', cs, n)
  {
    forall i | 0 <= i < n ensures CharAt(s', Start(cs, i), cs[i]) {
      StartGrows(cs, i + 1, n);
      assert CharAt(s, Start(cs, i), cs[i]);
    }
  }

  method AppendChar(s: array<int>, c: int, size0: nat, ghost cs: seq<int>, ghost n: nat) returns (size: nat)
    requires Chars(cs) && n < |cs| && c == cs[n] && size0 == Start(cs, n) && size0 + 6 <= s.Length
        && Holds(s[..], cs, n)
    modifies s
    ensures Holds(s[..], cs, n + 1) && size == Start(cs, n + 1) <= size0 + 6
  {
    var len := WcharUtf8(c, s, size0);
    HoldsKept(old(s[..]), s[..], cs, n, size0);
    size := size0 + len;
  }

  method Terminate(s: array<int>, size: nat, ghost cs: seq<int>, ghost n: nat)
    requires Chars(cs) && Holds(s[..], cs, n) && size == Start(cs, n) < s.Length
    modifies s
    ensures IsString(s[..], cs, n)
  {
    s[size] := 0;
    HoldsKept(old(s[..]), s[..], cs, n, size);
  }

  // n is the number of characters that start before the limit.
  ghost predicate Taken(cs: seq<int>, n: nat, maxstr: int)
    requires Chars(cs)
  {
    n <= |cs| && (n == |cs| || Start(cs, n) >= maxstr) && (n == 0 || Start(cs, n - 1) < maxstr)
  }

  // Encode a zero-terminated vector, until maxstr bytes are reached. The last character may go
  // past them.
  method WstrUtf8(s: array<int>, unicode: array<int>, maxstr: int, ghost cs: seq<int>) returns (size: nat, ghost n: nat)
    requires Chars(cs) && unicode != s && |cs| < unicode.Length && unicode[|cs|] == 0
    requires forall i :: 0 <= i < |cs| ==> unicode[i] == cs[i]
    requires s.Length >= maxstr + 6 && s.Length > 0
    modifies s
    ensures n <= |cs| && size == Start(cs, n) && IsString(s[..], cs, n) && Taken(cs, n, maxstr)
  {
    var k := 0;
    size, n := 0, 0;
    while unicode[k] != 0 && size < maxstr
      invariant 0 <= k == n <= |cs| && size == Start(cs, n) && size < s.Length && Holds(s[..], cs, n)
      invariant n == 0 || Start(cs, n - 1) < maxstr
      decreases |cs| - n
    {
      size := AppendChar(s, unicode[k], size, cs, n);
      k := k + 1;
      n := n + 1;
    }
    Terminate(s, size, cs, n);
  }

  // Every string that fits comes back as it was.
  method RoundTrip(s: array<int>, unicode: array<int>, back: array<int>, maxstr: int, maxwc: nat, ghost cs: seq<int>)
    returns (count: nat)
    requires Chars(cs) && unicode != s && back != s && |cs| < unicode.Length && unicode[|cs|] == 0
    requires forall i :: 0 <= i < |cs| ==> unicode[i] == cs[i]
    requires Start(cs, |cs|) <= maxstr && s.Length >= maxstr + 6 && |cs| <= maxwc && back.Length > |cs|
    modifies s, back
    ensures count == |cs| && back[count] == 0 && forall i :: 0 <= i < count ==> back[i] == cs[i]
  {
    var size;
    ghost var n;
    size, n := WstrUtf8(s, unicode, maxstr, cs);
    AllTaken(cs, n, maxstr);
    count := Utf8Wstr(back, s, maxwc, cs);
  }

  lemma AllTaken(cs: seq<int>, n: nat, maxstr: int)
    requires Chars(cs) && Taken(cs, n, maxstr) && Start(cs, |cs|) <= maxstr
    ensures n == |cs|
  {
    StartGrows(cs, n, |cs|);
  }

  // A limit that falls inside character i.
  ghost predicate Splits(cs: seq<int>, i: int, limit: int)
    requires Chars(cs)
  {
    0 <= i < |cs| && Start(cs, i) < limit < Start(cs, i + 1)
  }

  // The limit in bytes is kept exactly when it does not fall inside a character.
  lemma LimitKept(cs: seq<int>, n: nat, maxstr: int)
    requires Chars(cs) && Taken(cs, n, maxstr) && maxstr >= 0
    ensures Start(cs, n) <= maxstr <==> !exists i :: Splits(cs, i, maxstr)
  {
    if Start(cs, n) <= maxstr {
      forall i ensures !Splits(cs, i, maxstr) {
        if 0 <= i < n { StartGrows(cs, i + 1, n); } else if n <= i < |cs| { StartGrows(cs, n, i); }
      }
    } else {
      assert Splits(cs, n - 1, maxstr);
    }
  }

  lemma {:induction false} SixBytes(cs: seq<int>, n: nat)
    requires Chars(cs) && n <= |cs|
    ensures Start(cs, n) <= 6 * n
  {
    if n > 0 { SixBytes(cs, n - 1); }
  }

  // A limit of six bytes for each character is always kept.
  lemma SixBytesSuffice(cs: seq<int>, n: nat, maxstr: int)
    requires Chars(cs) && Taken(cs, n, maxstr) && maxstr >= 6 * |cs|
    ensures n == |cs| && Start(cs, n) <= maxstr
  {
    SixBytes(cs, |cs|);
    AllTaken(cs, n, maxstr);
  }

  // The primitive utf8 takes as limit the size of the zero-terminated vector, four bytes for
  // each character: with three characters of six bytes it is 16, and 18 bytes are written.
  method LimitNotKept() returns (size: nat)
    ensures size == 18
  {
    ghost var cs := [0x4000000, 0x4000000, 0x4000000];
    assert Start(cs, 0) == 0 && Start(cs, 1) == 6 && Start(cs, 2) == 12 && Start(cs, 3) == 18;
    var unicode := new int[4];
    unicode[0], unicode[1], unicode[2], unicode[3] := 0x4000000, 0x4000000, 0x4000000, 0;
    var s := new int[22];
    ghost var n;
    size, n := WstrUtf8(s, unicode, 4 * unicode.Length, cs);
  }
}
