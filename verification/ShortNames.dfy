/** Short directory names: eight characters and three, upper case, with two bits to remember lower case. */
module ShortNames {
  import opened Bytes

  const SPACE: byte := 32
  const DOT: byte := 46

  predicate IsUpper(c: byte) { 65 <= c <= 90 }
  predicate IsLower(c: byte) { 97 <= c <= 122 }

  function Up(c: byte): byte { if IsLower(c) then c - 32 else c }
  function Down(c: byte): byte { if IsUpper(c) then c + 32 else c }

  function Upper(s: seq<byte>): (r: seq<byte>)
    ensures |r| == |s| && forall i | 0 <= i < |s| :: r[i] == Up(s[i])
  {
    seq(|s|, i requires 0 <= i < |s| => Up(s[i]))
  }

  function Lower(s: seq<byte>): (r: seq<byte>)
    ensures |r| == |s| && forall i | 0 <= i < |s| :: r[i] == Down(s[i])
  {
    seq(|s|, i requires 0 <= i < |s| => Down(s[i]))
  }

  /** The last dot, or the length if there is none. */
  function LastDot(name: seq<byte>): (d: nat)
    ensures d <= |name| && (d < |name| ==> name[d] == DOT)
    ensures forall i | (if d < |name| then d + 1 else 0) <= i < |name| :: name[i] != DOT
  {
    if name == [] then 0
    else if name[|name| - 1] == DOT then |name| - 1
    else
      var d := LastDot(name[..|name| - 1]);
      if d == |name| - 1 then |name| else d
  }

  function Base(name: seq<byte>): seq<byte> { name[..LastDot(name)] }

  function Ext(name: seq<byte>): seq<byte> { if LastDot(name) < |name| then name[LastDot(name) + 1..] else [] }

  function Take(s: seq<byte>, k: nat): (r: seq<byte>)
    ensures r <= s && |r| == if |s| < k then |s| else k
  {
    if |s| <= k then s else s[..k]
  }

  /** Without spaces and dots. */
  function Kept(s: seq<byte>): (r: seq<byte>)
    ensures |r| <= |s|
    ensures forall c | c in r :: c != SPACE && c != DOT
    ensures r == s <==> SPACE !in s && DOT !in s
    ensures |r| == |s| ==> r == s
  {
    if s == [] then []
    else
      var r := Kept(s[..|s| - 1]);
      var c := s[|s| - 1];
      assert s == s[..|s| - 1] + [c];
      if c == SPACE || c == DOT then r else r + [c]
  }

  function Pad(s: seq<byte>, k: nat): (r: seq<byte>)
    requires |s| <= k
    ensures |r| == k && r[..|s|] == s && forall i | |s| <= i < k :: r[i] == SPACE
  {
    s + seq(k - |s|, _ => SPACE)
  }

  function Trim(s: seq<byte>): (r: seq<byte>)
    ensures |r| <= |s| && r == s[..|r|] && (r != [] ==> r[|r| - 1] != SPACE)
    ensures forall i | |r| <= i < |s| :: s[i] == SPACE
  {
    if s != [] && s[|s| - 1] == SPACE then Trim(s[..|s| - 1]) else s
  }

  function Encode(name: seq<byte>): (raw: seq<byte>)
    ensures |raw| == 11
  {
    Pad(Upper(Take(Kept(Base(name)), 8)), 8) + Pad(Upper(Take(Ext(name), 3)), 3)
  }

  function Cased(s: seq<byte>, lower: bool): (r: seq<byte>)
    ensures |r| == |s|
  {
    if lower then Lower(s) else s
  }

  function Decode(raw: seq<byte>, baseLower: bool, extLower: bool): seq<byte>
    requires |raw| == 11
  {
    var ext := Trim(raw[8..]);
    Cased(Trim(raw[..8]), baseLower) + (if ext == [] then [] else [DOT] + Cased(ext, extLower))
  }

  predicate AnyUpper(s: seq<byte>) { exists i | 0 <= i < |s| :: IsUpper(s[i]) }
  predicate AnyLower(s: seq<byte>) { exists i | 0 <= i < |s| :: IsLower(s[i]) }

  predicate AllLower(s: seq<byte>) { AnyLower(s) && !AnyUpper(s) }
  predicate Uniform(s: seq<byte>) { !(AnyLower(s) && AnyUpper(s)) }

  /** The name that comes back out of a directory entry. */
  function Stored(name: seq<byte>): seq<byte> { Decode(Encode(name), AllLower(Base(name)), AllLower(Ext(name))) }

  /** At most eight characters without spaces or dots and, after the last dot, one to three not ending in a space. */
  predicate Fits(name: seq<byte>) {
    && |Base(name)| <= 8 && SPACE !in Base(name) && DOT !in Base(name)
    && (LastDot(name) < |name| ==> 0 < |Ext(name)| <= 3 && Ext(name)[|Ext(name)| - 1] != SPACE)
  }

  // ----- what survives -----

  lemma {:induction false} TrimPad(s: seq<byte>, k: nat)
    requires |s| <= k
    ensures Trim(Pad(s, k)) == Trim(s)
    decreases k - |s|
  {
  }

  function ShortBase(name: seq<byte>): (b: seq<byte>)
    ensures DOT !in b && SPACE !in b && |b| <= 8
  {
    var k := Take(Kept(Base(name)), 8);
    assert forall i | 0 <= i < |k| :: k[i] in Kept(Base(name));
    Upper(k)
  }

  function ShortExt(name: seq<byte>): (e: seq<byte>)
    ensures DOT !in e && |e| <= 3
  {
    Trim(Upper(Take(Ext(name), 3)))
  }

  function Joined(base: seq<byte>, dot: bool, ext: seq<byte>): seq<byte> {
    base + if dot then [DOT] + ext else []
  }

  lemma StoredIs(name: seq<byte>)
    ensures Stored(name) == Joined(Cased(ShortBase(name), AllLower(Base(name))), ShortExt(name) != [],
                                   Cased(ShortExt(name), AllLower(Ext(name))))
  {
    hide Base, Ext, Kept, Take, Trim, Pad, Upper;
    var raw, b, e := Encode(name), ShortBase(name), Upper(Take(Ext(name), 3));
    assert raw[..8] == Pad(b, 8) && raw[8..] == Pad(e, 3);
    TrimPad(b, 8);
    TrimPad(e, 3);
    assert Trim(b) == b by { TrimNothing(b); }
  }

  lemma TrimNothing(s: seq<byte>)
    requires s == [] || s[|s| - 1] != SPACE
    ensures Trim(s) == s
  {
  }

  lemma NameIs(name: seq<byte>)
    ensures name == Joined(Base(name), LastDot(name) < |name|, Ext(name))
    ensures DOT !in Ext(name)
  {
    Parted(name, LastDot(name));
  }

  lemma Parted(name: seq<byte>, d: nat)
    requires d <= |name| && (d < |name| ==> name[d] == DOT)
    requires forall i | (if d < |name| then d + 1 else 0) <= i < |name| :: name[i] != DOT
    ensures name == Joined(name[..d], d < |name|, if d < |name| then name[d + 1..] else [])
    ensures d < |name| ==> DOT !in name[d + 1..]
  {
  }

  /** Where the last dot is decides how a name splits. */
  lemma SplitIff(b: seq<byte>, dot: bool, e: seq<byte>, b': seq<byte>, dot': bool, e': seq<byte>)
    requires DOT !in b && DOT !in e && DOT !in e' && (!dot' ==> DOT !in b')
    ensures Joined(b, dot, e) == Joined(b', dot', e') <==> b == b' && dot == dot' && (dot ==> e == e')
  {
    var x, y := Joined(b, dot, e), Joined(b', dot', e');
    assert (dot ==> x[|b|] == DOT) && (dot' ==> y[|b'|] == DOT);
    assert (dot ==> DOT in x) && (dot' ==> DOT in y) && (!dot ==> x == b) && (!dot' ==> y == b');
    assert dot ==> forall i | |b| < i < |x| :: x[i] == e[i - |b| - 1];
    assert dot' ==> forall i | |b'| < i < |y| :: y[i] == e'[i - |b'| - 1];
    if x == y {
      if dot && dot' {
        assert x[..|b|] == b && y[..|b'|] == b' && x[|b| + 1..] == e && y[|b'| + 1..] == e';
      }
    }
  }

  lemma UpperJoined(b: seq<byte>, dot: bool, e: seq<byte>)
    ensures Upper(Joined(b, dot, e)) == Joined(Upper(b), dot, Upper(e))
  {
  }

  lemma UpperCased(s: seq<byte>, lower: bool)
    ensures Upper(Cased(Upper(s), lower)) == Upper(s)
  {
  }

  lemma BaseSurvivesIff(name: seq<byte>)
    ensures ShortBase(name) == Upper(Base(name)) <==> |Base(name)| <= 8 && SPACE !in Base(name) && DOT !in Base(name)
  {
  }

  lemma ExtSurvivesIff(name: seq<byte>)
    ensures ShortExt(name) != [] && ShortExt(name) == Upper(Ext(name)) <==>
            0 < |Ext(name)| <= 3 && Ext(name)[|Ext(name)| - 1] != SPACE
  {
  }

  /** Looking the stored name up, which ignores case, finds it exactly when the name fits. */
  lemma FoundIff(name: seq<byte>)
    ensures Upper(Stored(name)) == Upper(name) <==> Fits(name)
  {
    hide Stored, Upper, Cased, Base, Ext, ShortBase, ShortExt, Joined;
    var b, e, dot := ShortBase(name), ShortExt(name), LastDot(name) < |name|;
    StoredIs(name);
    NameIs(name);
    UpperJoined(Cased(b, AllLower(Base(name))), e != [], Cased(e, AllLower(Ext(name))));
    UpperJoined(Base(name), dot, Ext(name));
    ShortIsUpper(name);
    UpperCased(b, AllLower(Base(name)));
    UpperCased(e, AllLower(Ext(name)));
    NoDots(name);
    SplitIff(b, e != [], e, Upper(Base(name)), dot, Upper(Ext(name)));
    BaseSurvivesIff(name);
    ExtSurvivesIff(name);
  }

  lemma ShortIsUpper(name: seq<byte>)
    ensures Upper(ShortBase(name)) == ShortBase(name) && Upper(ShortExt(name)) == ShortExt(name)
  {
  }

  lemma NoDots(name: seq<byte>)
    ensures DOT !in Upper(Ext(name))
    ensures LastDot(name) == |name| ==> DOT !in Upper(Base(name)) && Ext(name) == [] && ShortExt(name) == []
  {
    hide Upper, LastDot, ShortExt, Ext, Base;
    ExtNoDot(name);
    UpperDots(Ext(name));
    if LastDot(name) == |name| {
      OnlyBase(name);
      UpperDots(Base(name));
    }
  }

  lemma ExtNoDot(name: seq<byte>)
    ensures DOT !in Ext(name)
  {
    hide LastDot;
    var d := LastDot(name);
    forall i | 0 <= i < |Ext(name)|
      ensures Ext(name)[i] != DOT
    {
      assert Ext(name)[i] == name[d + 1 + i];
    }
  }

  lemma OnlyBase(name: seq<byte>)
    requires LastDot(name) == |name|
    ensures Base(name) == name && DOT !in name && Ext(name) == [] && ShortExt(name) == []
  {
    hide LastDot;
    assert forall i | 0 <= i < |name| :: name[i] != DOT;
  }

  lemma UpperDots(s: seq<byte>)
    requires DOT !in s
    ensures DOT !in Upper(s)
  {
  }

  lemma CasedIff(s: seq<byte>, b: seq<byte>)
    requires Upper(b) == b
    ensures Cased(b, AllLower(s)) == s <==> b == Upper(s) && Uniform(s)
  {
  }

  lemma CasedNoDots(s: seq<byte>, lower: bool)
    requires DOT !in s
    ensures DOT !in Cased(s, lower)
  {
  }

  /** The very name comes back exactly when it fits and neither part mixes cases. */
  lemma IdenticalIff(name: seq<byte>)
    ensures Stored(name) == name <==> Fits(name) && Uniform(Base(name)) && Uniform(Ext(name))
  {
    hide Stored, Upper, Cased, Base, Ext, ShortBase, ShortExt, Joined, LastDot, AllLower, Uniform;
    var b, e, dot := ShortBase(name), ShortExt(name), LastDot(name) < |name|;
    var b1, e1 := Cased(b, AllLower(Base(name))), Cased(e, AllLower(Ext(name)));
    StoredIs(name);
    NameIs(name);
    NoDots(name);
    CasedNoDots(b, AllLower(Base(name)));
    CasedNoDots(e, AllLower(Ext(name)));
    DotsBack(Base(name));
    SplitIff(b1, e != [], e1, Base(name), dot, Ext(name));
    ShortIsUpper(name);
    CasedIff(Base(name), b);
    CasedIff(Ext(name), e);
    BaseSurvivesIff(name);
    ExtSurvivesIff(name);
    assert Uniform([]) by { UniformEmpty(); }
  }

  lemma DotsBack(s: seq<byte>)
    ensures DOT !in Upper(s) ==> DOT !in s
  {
  }

  lemma UniformEmpty()
    ensures Uniform([])
  {
  }

  // ----- the code -----

  lemma {:induction false} KeptSplit(a: seq<byte>, b: seq<byte>)
    ensures Kept(a + b) == Kept(a) + Kept(b)
  {
    hide Kept;
    if b == [] {
      assert a + b == a;
    } else {
      var t, c := b[..|b| - 1], b[|b| - 1];
      KeptSplit(a, t);
      KeptLast(a + t, c);
      KeptLast(t, c);
      assert t + [c] == b && a + t + [c] == a + b;
    }
  }

  lemma KeptLast(s: seq<byte>, c: byte)
    ensures Kept(s + [c]) == Kept(s) + if c == SPACE || c == DOT then [] else [c]
  {
  }

  method FindLastDot(name: seq<byte>) returns (d: nat)
    ensures d == LastDot(name)
  {
    d := |name|;
    for j := 0 to |name|
      invariant (d == |name| || d < j) && LastDot(name[..j]) == if d == |name| then j else d
    {
      assert name[..j + 1][..j] == name[..j];
      if name[j] == DOT { d := j; }
    }
    assert name[..|name|] == name;
  }

  method ToShortName(name: seq<byte>) returns (out: seq<byte>)
    ensures out == Encode(name)
  {
    var d := FindLastDot(name);
    var base := BaseField(name, d);
    var ext: seq<byte> := [];
    if d < |name| {
      var e := d + 1;
      while e < |name| && |ext| < 3
        invariant d + 1 <= e <= |name| && |ext| == e - d - 1 <= 3 && ext == Upper(name[d + 1..e])
      {
        ext := ext + [Up(name[e])];
        e := e + 1;
      }
      assert name[d + 1..e] == Take(Ext(name), 3);
    }
    out := Pad(base, 8) + Pad(ext, 3);
  }

  method BaseField(name: seq<byte>, d: nat) returns (base: seq<byte>)
    requires d == LastDot(name)
    ensures base == Upper(Take(Kept(Base(name)), 8))
  {
    hide LastDot, Upper, Kept;
    base := [];
    var i := 0;
    UpperMore([], []);
    assert Kept(name[..0]) == [];
    while i < |name| && |base| < 8
      invariant 0 <= i <= d && |base| <= 8 && base == Upper(Kept(name[..i]))
    {
      if i == d { break; }
      var c := Up(name[i]);
      assert name[..i + 1] == name[..i] + [name[i]];
      KeptLast(name[..i], name[i]);
      UpperMore(Kept(name[..i]), [name[i]]);
      i := i + 1;
      if c == SPACE || c == DOT { continue; }
      base := base + [c];
    }
    KeptSplit(name[..i], name[i..d]);
    assert name[..i] + name[i..d] == name[..d];
    assert Take(Kept(name[..d]), 8) == Kept(name[..i]);
  }

  lemma UpperMore(a: seq<byte>, b: seq<byte>)
    ensures Upper(a + b) == Upper(a) + Upper(b)
    ensures |b| == 1 ==> Upper(b) == [Up(b[0])]
    ensures Upper([]) == []
  {
  }

  /** The two case bits. */
  method CaseBits(name: seq<byte>) returns (baseLower: bool, extLower: bool)
    ensures baseLower == AllLower(Base(name)) && extLower == AllLower(Ext(name))
  {
    var d := FindLastDot(name);
    baseLower := ScanCase(name[..d]);
    extLower := false;
    if d < |name| { extLower := ScanCase(name[d + 1..]); }
  }

  method ScanCase(s: seq<byte>) returns (r: bool)
    ensures r == AllLower(s)
  {
    var upper, lower := false, false;
    for i := 0 to |s|
      invariant upper == AnyUpper(s[..i]) && lower == AnyLower(s[..i])
    {
      assert s[..i + 1] == s[..i] + [s[i]];
      if IsUpper(s[i]) {
        upper := true;
        assert IsUpper(s[..i + 1][i]);
      }
      if IsLower(s[i]) {
        lower := true;
        assert IsLower(s[..i + 1][i]);
      }
    }
    assert s[..|s|] == s;
    r := lower && !upper;
  }

  /** Zero exactly when the names differ in case at most. */
  method Compare(a: seq<byte>, b: seq<byte>) returns (r: int)
    requires 0 !in a && 0 !in b
    ensures r == 0 <==> Upper(a) == Upper(b)
  {
    var i := 0;
    while i < |a| && i < |b|
      invariant 0 <= i <= |a| && i <= |b| && Upper(a[..i]) == Upper(b[..i])
    {
      if Up(a[i]) != Up(b[i]) {
        assert Upper(a)[i] != Upper(b)[i];
        return Up(a[i]) as int - Up(b[i]) as int;
      }
      i := i + 1;
    }
    assert i == |a| || i == |b|;
    r := (if i < |a| then Up(a[i]) as int else 0) - (if i < |b| then Up(b[i]) as int else 0);
    assert i < |a| ==> Up(a[i]) != 0;
    assert i < |b| ==> Up(b[i]) != 0;
    if i == |a| && i == |b| {
      assert a[..i] == a && b[..i] == b;
    } else {
      assert |Upper(a)| != |Upper(b)|;
    }
  }

  method FromShortName(raw: seq<byte>, baseLower: bool, extLower: bool) returns (out: seq<byte>)
    requires |raw| == 11
    ensures out == Decode(raw, baseLower, extLower)
  {
    var base := TrimField(raw[..8], baseLower);
    var ext := TrimField(raw[8..], extLower);
    out := base;
    if |ext| > 0 { out := out + [DOT] + ext; }
    assert base + ([DOT] + ext) == base + [DOT] + ext;
  }

  method TrimField(field: seq<byte>, lower: bool) returns (out: seq<byte>)
    ensures out == Cased(Trim(field), lower)
  {
    var end := |field| - 1;
    while end >= 0 && field[end] == SPACE
      invariant -1 <= end < |field| && Trim(field) == Trim(field[..end + 1])
    {
      assert field[..end + 1][..end] == field[..end];
      end := end - 1;
    }
    assert Trim(field) == field[..end + 1];
    out := [];
    for i := 0 to end + 1
      invariant out == Cased(field[..i], lower)
    {
      out := out + [if lower && IsUpper(field[i]) then field[i] + 32 else field[i]];
    }
  }
}
