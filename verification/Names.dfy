// Symbol names and the order the symbol tree keeps them in.
module Names {
  import opened Signs

  // A C string: its bytes without the terminating zero.
  type Byte = b: int | 0 < b < 256 witness 1
  type Name = seq<Byte>

  // The byte the C code reads at position i; the terminator follows the last byte.
  function CharAt(a: Name, i: nat): int
    requires i <= |a|
  {
    if i < |a| then a[i] else 0
  }

  // The pre-compare of the first two bytes. An empty name has no second byte to read.
  function Str2Cmp(a: Name, b: Name): int
    requires a != [] && b != []
  {
    (CharAt(a, 0) * 256 + CharAt(a, 1)) - (CharAt(b, 0) * 256 + CharAt(b, 1))
  }

  function StrCmp(a: Name, b: Name): int {
    if a == [] || b == [] || a[0] != b[0] then CharAt(a, 0) - CharAt(b, 0)
    else StrCmp(a[1..], b[1..])
  }

  // The comparison of every lookup: the full one only when the first two bytes agree.
  function Compare(a: Name, b: Name): int
    requires a != [] && b != []
  {
    var c := Str2Cmp(a, b);
    if c == 0 then StrCmp(a, b) else c
  }

  predicate Less(a: Name, b: Name) {
    StrCmp(a, b) < 0
  }

  // The two-byte pre-compare never disagrees with strcmp.
  lemma PreCompareAgrees(a: Name, b: Name)
    requires a != [] && b != []
    ensures Sign(Compare(a, b)) == Sign(StrCmp(a, b))
  {
    if a[0] == b[0] {
      assert StrCmp(a, b) == StrCmp(a[1..], b[1..]);
      assert CharAt(a, 1) == CharAt(a[1..], 0) && CharAt(b, 1) == CharAt(b[1..], 0);
    }
  }

  lemma {:induction false} StrCmpEqual(a: Name, b: Name)
    ensures StrCmp(a, b) == 0 <==> a == b
  {
    if a != [] && b != [] && a[0] == b[0] {
      StrCmpEqual(a[1..], b[1..]);
      assert a == [a[0]] + a[1..] && b == [b[0]] + b[1..];
    }
  }

  lemma {:induction false} StrCmpFlip(a: Name, b: Name)
    ensures StrCmp(a, b) == -StrCmp(b, a)
  {
    if a != [] && b != [] && a[0] == b[0] {
      StrCmpFlip(a[1..], b[1..]);
    }
  }

  lemma {:induction false} LessTransitive(a: Name, b: Name, c: Name)
    requires Less(a, b) && Less(b, c)
    ensures Less(a, c)
  {
    if a != [] && b != [] && c != [] && a[0] == b[0] == c[0] {
      LessTransitive(a[1..], b[1..], c[1..]);
    }
  }

  // The order of a dictionary over bytes: at the first difference the smaller byte comes first,
  // and a name comes before every longer one that starts with it.
  ghost predicate Alphabetical(a: Name, b: Name) {
    exists k :: FirstDiffer(a, b, k)
  }

  predicate FirstDiffer(a: Name, b: Name, k: nat) {
    k <= |a| && k < |b| && a[..k] == b[..k] && (k == |a| || a[k] < b[k])
  }

  lemma {:induction false} LessIsAlphabetical(a: Name, b: Name)
    ensures Less(a, b) <==> Alphabetical(a, b)
  {
    if a == [] || b == [] || a[0] != b[0] {
      assert a[..0] == [] == b[..0];
      if Less(a, b) { assert FirstDiffer(a, b, 0); }
      forall k: nat | FirstDiffer(a, b, k) ensures Less(a, b) {
        FirstsAgree(a, b, k);
      }
    } else {
      var a1, b1 := a[1..], b[1..];
      LessIsAlphabetical(a1, b1);
      forall k: nat | FirstDiffer(a, b, k) ensures k > 0 && FirstDiffer(a1, b1, k - 1) {
        FirstDifferLater(a, b, k);
      }
      forall k: nat | FirstDiffer(a1, b1, k) ensures FirstDiffer(a, b, k + 1) {
        assert a[..k + 1] == [a[0]] + a1[..k] && b[..k + 1] == [b[0]] + b1[..k];
      }
    }
  }

  lemma FirstsAgree(a: Name, b: Name, k: nat)
    requires FirstDiffer(a, b, k)
    ensures k > 0 ==> a != [] && b != [] && a[0] == b[0]
  {
    if k > 0 { assert a[..k][0] == b[..k][0]; }
  }

  lemma FirstDifferLater(a: Name, b: Name, k: nat)
    requires a != [] && b != [] && a[0] == b[0] && FirstDiffer(a, b, k)
    ensures k > 0 && FirstDiffer(a[1..], b[1..], k - 1)
  {
    assert k > 0;
    assert a[1..][..k - 1] == a[..k][1..] && b[1..][..k - 1] == b[..k][1..];
  }

  // What a lookup learns from one comparison.
  lemma CompareIsOrder(key: Name, name: Name)
    requires key != [] && name != []
    ensures Compare(key, name) == 0 <==> key == name
    ensures Compare(key, name) < 0 <==> Less(key, name)
    ensures Compare(key, name) > 0 <==> Less(name, key)
  {
    PreCompareAgrees(key, name);
    StrCmpEqual(key, name);
    StrCmpFlip(key, name);
  }
}
