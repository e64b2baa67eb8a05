/** The shadow file: printing the user table as text and reading it back. */
module Shadow {
  import opened Bytes

  const MAX_USERS: nat := 64
  const MAX_NAME: nat := 32   // with the terminating NUL
  const SALT_SIZE: nat := 8
  const HASH_SIZE: nat := 32
  const BUFFER: nat := 8192
  const MARGIN: nat := 160

  datatype Option<T> = None | Some(value: T)
  datatype User = User(name: string, salt: seq<byte>, hash: seq<byte>, admin: bool)
  datatype Entry = Entry(used: bool, user: User)

  /** What the table can hold: a name of at most 31 characters, a salt and a hash. */
  predicate Storable(u: User)
    { |u.name| < MAX_NAME && '\0' !in u.name && |u.salt| == SALT_SIZE && |u.hash| == HASH_SIZE }

  predicate IsTable(db: seq<Entry>) { |db| <= MAX_USERS && forall i | 0 <= i < |db| :: Storable(db[i].user) }

  predicate IsBreak(c: char) { c == '\n' || c == '\r' }

  /** A name the reader takes for a name. */
  predicate WellNamed(name: string) {
    0 < |name| < MAX_NAME && name[0] != '#' && forall i | 0 <= i < |name| :: name[i] != ':' && !IsBreak(name[i])
  }

  // ----- hexadecimal -----

  /** Free of everything that separates fields and lines. */
  predicate Plain(s: string) { forall i | 0 <= i < |s| :: s[i] != ':' && !IsBreak(s[i]) && s[i] != '\0' }

  const DIGITS: string := "0123456789abcdef"
  const CAPITALS: string := "0123456789ABCDEF"

  function HexChar(d: nat): (c: char)
    requires d < 16
    ensures HexDigit(c) == d && c != ':' && !IsBreak(c) && c != '\0'
  {
    if d < 10 then (48 + d) as char else (97 + d - 10) as char
  }

  function HexDigit(c: char): (d: int)
    ensures -1 <= d < 16
  {
    if '0' <= c <= '9' then c as int - 48
    else if 'a' <= c <= 'f' then c as int - 97 + 10
    else if 'A' <= c <= 'F' then c as int - 65 + 10
    else -1
  }

  function Hex(bytes: seq<byte>): (s: string)
    ensures |s| == 2 * |bytes|
  {
    if bytes == [] then [] else [HexChar(bytes[0] / 16), HexChar(bytes[0] % 16)] + Hex(bytes[1..])
  }

  function Unhex(s: string): Option<seq<byte>> {
    if |s| < 2 then Some([])
    else
      var hi, lo := HexDigit(s[0]), HexDigit(s[1]);
      if hi < 0 || lo < 0 then None
      else match Unhex(s[2..])
           case None => None
           case Some(rest) => Some([hi * 16 + lo] + rest)
  }

  /** A digit is one of "0" to "9" and "a" to "f" or their capitals. */
  lemma DigitIs(c: char, k: nat)
    requires k < 16
    ensures HexDigit(c) == k <==> c == DIGITS[k] || c == CAPITALS[k]
    ensures HexChar(k) == DIGITS[k]
  {
  }

  /** Two digits to a byte, the upper half first. */
  lemma {:induction false} HexSpells(data: seq<byte>, i: nat)
    requires i < |data|
    ensures Hex(data)[2 * i] == DIGITS[data[i] / 16] && Hex(data)[2 * i + 1] == DIGITS[data[i] % 16]
  {
    hide HexChar, HexDigit;
    if i == 0 {
      DigitIs('0', data[0] / 16);
      DigitIs('0', data[0] % 16);
    } else {
      HexSpells(data[1..], i - 1);
    }
  }

  lemma {:induction false} HexRoundTrip(bytes: seq<byte>)
    ensures Unhex(Hex(bytes)) == Some(bytes)
    ensures Plain(Hex(bytes))
  {
    hide HexChar, HexDigit;
    if bytes != [] {
      var hi, lo := HexChar(bytes[0] / 16), HexChar(bytes[0] % 16);
      assert Hex(bytes) == [hi, lo] + Hex(bytes[1..]);
      assert HexDigit(hi) * 16 + HexDigit(lo) == bytes[0];
      HexRoundTrip(bytes[1..]);
      assert Hex(bytes)[2..] == Hex(bytes[1..]);
      assert [bytes[0]] + bytes[1..] == bytes;
    }
  }

  // ----- printing -----

  function Body(u: User): string {
    u.name + ":" + Hex(u.salt) + ":" + Hex(u.hash) + ":" + (if u.admin then "1" else "0")
  }

  function Line(u: User): string { Body(u) + "\n" }

  function Printed(db: seq<Entry>): string {
    if db == [] then "" else (if db[0].used then Line(db[0].user) else "") + Printed(db[1..])
  }

  // ----- reading -----

  /** The first colon at or after `from`, or -1. */
  function Colon(line: string, from: nat): (k: int)
    ensures k == -1 || from <= k < |line|
    ensures k >= 0 ==> line[k] == ':' && forall i | from <= i < k :: line[i] != ':'
    ensures k < 0 ==> forall i | from <= i < |line| :: line[i] != ':'
    decreases |line| - from
  {
    if from >= |line| then -1 else if line[from] == ':' then from else Colon(line, from + 1)
  }

  function CString(s: string): (r: string)
    ensures '\0' !in s ==> r == s
    ensures r <= s && '\0' !in r && (|r| < |s| ==> s[|r|] == '\0')
  {
    if s == [] || s[0] == '\0' then [] else [s[0]] + CString(s[1..])
  }

  /** A line is name:salt:hash[:admin], or, in the older form, name:hash. */
  function ParseLine(line: string): Option<User>
    requires line != []
  {
    var c1 := Colon(line, 0);
    if line[0] == '#' || c1 <= 0 || c1 >= MAX_NAME then None
    else
      var name := CString(line[..c1]);
      var c2 := Colon(line, c1 + 1);
      if c2 < 0 then Finish(name, Zeros(SALT_SIZE), line[c1 + 1..], false)
      else
        var c3 := Colon(line, c2 + 1);
        var hash := if c3 < 0 then line[c2 + 1..] else line[c2 + 1..c3];
        var admin := c3 >= 0 && c3 + 1 < |line| && line[c3 + 1] == '1';
        if c2 - c1 - 1 != 2 * SALT_SIZE then None
        else match Unhex(line[c1 + 1..c2])
             case None => None
             case Some(salt) => Finish(name, salt, hash, admin)
  }

  function Finish(name: string, salt: seq<byte>, hash: string, admin: bool): Option<User> {
    if |hash| != 2 * HASH_SIZE then None
    else match Unhex(hash)
         case None => None
         case Some(h) => Some(User(name, salt, h, admin))
  }

  /** The end of the first line. */
  function LineEnd(text: string): (e: nat)
    ensures e <= |text| && (e < |text| ==> IsBreak(text[e])) && forall i | 0 <= i < e :: !IsBreak(text[i])
  {
    if text == [] || IsBreak(text[0]) then 0 else 1 + LineEnd(text[1..])
  }

  /** The users in `text`, for the slots from `slot` on; slot 0 is always an administrator. */
  function Parse(text: string, slot: nat): seq<User>
    decreases |text|
  {
    if text == [] || slot >= MAX_USERS then []
    else if IsBreak(text[0]) then Parse(text[1..], slot)
    else
      var e := LineEnd(text);
      match ParseLine(text[..e])
      case None => Parse(text[e..], slot)
      case Some(u) => [u.(admin := slot == 0 || u.admin)] + Parse(text[e..], slot + 1)
  }

  /** The older form: no salt, no administrator. */
  lemma OlderForm(name: string, hash: seq<byte>)
    requires WellNamed(name) && '\0' !in name && |hash| == 32
    ensures ParseLine(name + ":" + Hex(hash)) == Some(User(name, [0, 0, 0, 0, 0, 0, 0, 0], hash, false))
  {
    hide HexChar, HexDigit, Hex, Unhex, Colon;
    HexRoundTrip(hash);
    OneColon(name, Hex(hash));
    assert Zeros(8) == [0, 0, 0, 0, 0, 0, 0, 0];
  }

  lemma OneColon(name: string, rest: string)
    requires WellNamed(name) && Plain(rest)
    ensures var line, n := name + ":" + rest, |name|;
            && line[..n] == name && line[n + 1..] == rest && Colon(line, 0) == n && Colon(line, n + 1) == -1
            && line[0] == name[0]
  {
    var line, n := name + ":" + rest, |name|;
    assert line[..n] == name && line[n] == ':' && line[n + 1..] == rest;
    assert forall i | 0 <= i < n :: line[i] == name[i];
    assert forall i | n < i < |line| :: line[i] == rest[i - n - 1];
    assert Colon(line, 0) == n && Colon(line, n + 1) == -1;
  }

  /** A line with a salt and without the last field: no administrator. */
  lemma NoFlag(name: string, salt: seq<byte>, hash: seq<byte>)
    requires WellNamed(name) && '\0' !in name && |salt| == 8 && |hash| == 32
    ensures ParseLine(name + ":" + Hex(salt) + ":" + Hex(hash)) == Some(User(name, salt, hash, false))
  {
    hide HexChar, HexDigit, Hex, Unhex;
    HexRoundTrip(salt);
    HexRoundTrip(hash);
    var line, n := name + ":" + Hex(salt) + ":" + Hex(hash), |name|;
    assert line[..n] == name && line[n] == ':' && line[n + 1..n + 17] == Hex(salt) && line[n + 17] == ':';
    assert line[n + 18..] == Hex(hash);
    assert forall i | 0 <= i < n :: line[i] == name[i];
    assert forall i | n < i < n + 17 :: line[i] == Hex(salt)[i - n - 1];
    assert forall i | n + 18 <= i < |line| :: line[i] == Hex(hash)[i - n - 18];
    assert Colon(line, 0) == n && Colon(line, n + 1) == n + 17 && Colon(line, n + 18) == -1;
  }

  // ----- round trip -----

  /** The used entries in order, the first of them an administrator. */
  function Expected(db: seq<Entry>, slot: nat): (us: seq<User>)
    ensures |us| <= |db|
  {
    if db == [] then []
    else if db[0].used then [db[0].user.(admin := slot == 0 || db[0].user.admin)] + Expected(db[1..], slot + 1)
    else Expected(db[1..], slot)
  }

  predicate AllWellNamed(db: seq<Entry>) { forall i | 0 <= i < |db| && db[i].used :: WellNamed(db[i].user.name) }

  /** Four fields. */
  function Fields(name: string, salt: string, hash: string, flag: char): string {
    name + ":" + salt + ":" + hash + ":" + [flag]
  }

  lemma FieldsAt(name: string, salt: string, hash: string, flag: char)
    requires |salt| == 16 && |hash| == 64
    ensures var b, n := Fields(name, salt, hash, flag), |name|;
            && |b| == n + 84 && b[..n] == name && b[n + 1..n + 17] == salt && b[n + 18..n + 82] == hash
            && b[n] == ':' && b[n + 17] == ':' && b[n + 82] == ':' && b[n + 83] == flag
  {
  }

  lemma FieldsSplit(name: string, salt: string, hash: string, flag: char)
    requires |salt| == 16 && |hash| == 64 && Plain(name) && Plain(salt) && Plain(hash)
    requires flag != ':' && !IsBreak(flag) && flag != '\0'
    ensures var b, n := Fields(name, salt, hash, flag), |name|;
            && Colon(b, 0) == n && Colon(b, n + 1) == n + 17 && Colon(b, n + 18) == n + 82
            && LineEnd(b) == |b| && '\0' !in b
  {
    hide Fields;
    var b, n := Fields(name, salt, hash, flag), |name|;
    FieldsAt(name, salt, hash, flag);
    forall i | 0 <= i < |b| && i != n && i != n + 17 && i != n + 82
      ensures b[i] != ':' && !IsBreak(b[i]) && b[i] != '\0'
    {
      if i < n {
        assert b[i] == b[..n][i];
      } else if i < n + 17 {
        assert b[i] == b[n + 1..n + 17][i - n - 1];
      } else if i < n + 82 {
        assert b[i] == b[n + 18..n + 82][i - n - 18];
      }
    }
  }

  lemma LineParses(u: User)
    requires Storable(u) && WellNamed(u.name)
    ensures Body(u) != [] && ParseLine(Body(u)) == Some(u) && LineEnd(Body(u)) == |Body(u)|
  {
    hide Fields, Colon, LineEnd, Hex, Unhex, HexDigit;
    HexRoundTrip(u.salt);
    HexRoundTrip(u.hash);
    var flag := if u.admin then '1' else '0';
    var b := Fields(u.name, Hex(u.salt), Hex(u.hash), flag);
    assert b == Body(u) by { BodyIs(u); }
    FieldsAt(u.name, Hex(u.salt), Hex(u.hash), flag);
    FieldsSplit(u.name, Hex(u.salt), Hex(u.hash), flag);
    assert b[0] == b[..|u.name|][0];
  }

  lemma BodyIs(u: User)
    ensures Body(u) == Fields(u.name, Hex(u.salt), Hex(u.hash), if u.admin then '1' else '0')
  {
  }

  lemma LineEndOf(b: string, rest: string)
    requires LineEnd(b) == |b|
    ensures LineEnd(b + "\n" + rest) == |b|
  {
    var text := b + "\n" + rest;
    assert text[|b|] == '\n';
    assert forall i | 0 <= i < |b| :: text[i] == b[i];
  }

  lemma ParseBreak(rest: string, slot: nat)
    ensures Parse("\n" + rest, slot) == if slot >= MAX_USERS then [] else Parse(rest, slot)
  {
  }

  lemma ParseNothing(slot: nat)
    ensures Parse("", slot) == []
  {
  }

  lemma ParseNext(u: User, rest: string, slot: nat)
    requires Storable(u) && WellNamed(u.name) && slot < MAX_USERS
    ensures Parse(Line(u) + rest, slot) == [u.(admin := slot == 0 || u.admin)] + Parse(rest, slot + 1)
  {
    hide Body, ParseLine, LineEnd;
    var b := Body(u);
    var text := b + "\n" + rest;
    LineParses(u);
    LineEndOf(b, rest);
    assert !IsBreak(b[0]) by { LineStart(b); }
    assert text[0] == b[0];
    assert text[..|b|] == b && text[|b|..] == "\n" + rest;
    ParseBreak(rest, slot + 1);
    if slot + 1 >= MAX_USERS {
      assert Parse(rest, slot + 1) == [];
    }
  }

  lemma LineStart(b: string)
    requires b != [] && LineEnd(b) == |b|
    ensures !IsBreak(b[0])
  {
  }

  lemma {:induction false} ReadsBack(db: seq<Entry>, slot: nat)
    requires IsTable(db) && AllWellNamed(db) && slot + |db| <= MAX_USERS
    ensures Parse(Printed(db), slot) == Expected(db, slot)
  {
    hide Parse, Line;
    if db == [] {
      ParseNothing(slot);
    } else {
      assert AllWellNamed(db[1..]) by { assert forall i | 0 <= i < |db| - 1 :: db[1..][i] == db[i + 1]; }
      if db[0].used {
        ReadsBack(db[1..], slot + 1);
        ParseNext(db[0].user, Printed(db[1..]), slot);
      } else {
        ReadsBack(db[1..], slot);
        assert "" + Printed(db[1..]) == Printed(db[1..]);
      }
    }
  }

  /** Whatever the text, unless it holds a NUL, the reader finds well-formed names only. */
  lemma {:induction false} FoundNames(text: string, slot: nat)
    requires '\0' !in text
    ensures forall i | 0 <= i < |Parse(text, slot)| :: WellNamed(Parse(text, slot)[i].name)
    decreases |text|
  {
    if text == [] || slot >= MAX_USERS {
    } else if IsBreak(text[0]) {
      FoundNames(text[1..], slot);
    } else {
      var e := LineEnd(text);
      FoundNames(text[e..], slot);
      FoundNames(text[e..], slot + 1);
      FoundName(text[..e]);
    }
  }

  lemma FoundName(line: string)
    requires line != [] && '\0' !in line && forall i | 0 <= i < |line| :: !IsBreak(line[i])
    ensures ParseLine(line).Some? ==> WellNamed(ParseLine(line).value.name)
  {
  }

  lemma {:induction false} PrintedHasNoNul(db: seq<Entry>)
    requires IsTable(db)
    ensures '\0' !in Printed(db)
  {
    if db != [] {
      PrintedHasNoNul(db[1..]);
      var u := db[0].user;
      HexRoundTrip(u.salt);
      HexRoundTrip(u.hash);
      assert '\0' !in Hex(u.salt) && '\0' !in Hex(u.hash);
    }
  }

  lemma {:induction false} ExpectedNames(db: seq<Entry>, slot: nat, i: nat) returns (k: nat)
    requires i < |db| && db[i].used
    ensures k < |Expected(db, slot)| && Expected(db, slot)[k].name == db[i].user.name
  {
    if i == 0 {
      k := 0;
    } else if db[0].used {
      k := ExpectedNames(db[1..], slot + 1, i - 1);
      k := k + 1;
    } else {
      k := ExpectedNames(db[1..], slot, i - 1);
    }
  }

  /**
    * Reading back what was printed gives the used entries in slot order, with their salts, hashes and flags, exactly
    * when every used name is well-formed. Adding a user does not check that.
    */
  lemma ReadsBackIff(db: seq<Entry>)
    requires IsTable(db)
    ensures Parse(Printed(db), 0) == Expected(db, 0) <==> AllWellNamed(db)
  {
    if AllWellNamed(db) {
      ReadsBack(db, 0);
    } else {
      var i :| 0 <= i < |db| && db[i].used && !WellNamed(db[i].user.name);
      var k := ExpectedNames(db, 0, i);
      PrintedHasNoNul(db);
      FoundNames(Printed(db), 0);
    }
  }

  function Entries(us: seq<User>): (db: seq<Entry>)
    ensures |db| == |us| && forall i | 0 <= i < |us| :: db[i] == Entry(true, us[i])
  {
    seq(|us|, i requires 0 <= i < |us| => Entry(true, us[i]))
  }

  lemma EntriesMore(us: seq<User>, u: User)
    ensures Entries(us + [u]) == Entries(us) + [Entry(true, u)]
  {
  }

  /** The first used entry, if any, is an administrator. */
  predicate FirstIsAdmin(db: seq<Entry>) {
    db == [] || (if db[0].used then db[0].user.admin else FirstIsAdmin(db[1..]))
  }

  lemma {:induction false} PrintedLater(db: seq<Entry>, slot: nat)
    requires slot > 0
    ensures Printed(Entries(Expected(db, slot))) == Printed(db)
  {
    if db != [] {
      if db[0].used {
        PrintedLater(db[1..], slot + 1);
        var es := Entries(Expected(db, slot));
        assert es[1..] == Entries(Expected(db[1..], slot + 1));
      } else {
        PrintedLater(db[1..], slot);
        assert "" + Printed(db[1..]) == Printed(db[1..]);
      }
    }
  }

  /** Printing what was read back gives the same text exactly when the first used entry was an administrator. */
  lemma {:induction false} PrintsAgainIff(db: seq<Entry>)
    requires IsTable(db)
    ensures Printed(Entries(Expected(db, 0))) == Printed(db) <==> FirstIsAdmin(db)
  {
    hide Hex;
    if db != [] {
      if db[0].used {
        PrintedLater(db[1..], 1);
        var es, u := Entries(Expected(db, 0)), db[0].user;
        assert es[1..] == Entries(Expected(db[1..], 1));
        var k := |Line(u)| - 2;
        assert Printed(es)[k] == Line(u.(admin := true))[k] == '1';
        assert Printed(db)[k] == Line(u)[k] == if u.admin then '1' else '0';
      } else {
        PrintsAgainIff(db[1..]);
        assert "" + Printed(db[1..]) == Printed(db[1..]);
      }
    }
  }

  // ----- the code -----

  method EncodeHex(data: seq<byte>) returns (out: string)
    ensures out == Hex(data) && |out| == 2 * |data|
    ensures forall i | 0 <= i < |data| :: out[2 * i] == DIGITS[data[i] / 16] && out[2 * i + 1] == DIGITS[data[i] % 16]
  {
    hide Hex, HexChar;
    forall i | 0 <= i < |data|
      ensures Hex(data)[2 * i] == DIGITS[data[i] / 16] && Hex(data)[2 * i + 1] == DIGITS[data[i] % 16]
    {
      HexSpells(data, i);
    }
    out := "";
    assert data[0..] == data && "" + Hex(data) == Hex(data);
    for i := 0 to |data|
      invariant out + Hex(data[i..]) == Hex(data)
    {
      var hi, lo := HexChar(data[i] / 16 % 16), HexChar(data[i] % 16);
      HexStep(data, i);
      assert out + ([hi, lo] + Hex(data[i + 1..])) == out + [hi, lo] + Hex(data[i + 1..]);
      out := out + [hi, lo];
    }
    assert data[|data|..] == [] && |Hex(data[|data|..])| == 0;
  }

  lemma HexStep(data: seq<byte>, i: nat)
    requires i < |data|
    ensures Hex(data[i..]) == [HexChar(data[i] / 16 % 16), HexChar(data[i] % 16)] + Hex(data[i + 1..])
  {
  }

  /** Two digits to a byte; the text has an even length. */
  method DecodeHex(hex: string) returns (r: Option<seq<byte>>)
    requires |hex| % 2 == 0
    ensures r == Unhex(hex)
  {
    var out: seq<byte> := [];
    var i := 0;
    assert hex[0..] == hex && (Unhex(hex).Some? ==> out + Unhex(hex).value == Unhex(hex).value);
    while i < |hex|
      invariant 0 <= i <= |hex| && i % 2 == 0 && Unhex(hex) == Prepend(out, Unhex(hex[i..]))
    {
      var hi, lo := HexDigit(hex[i]), HexDigit(hex[i + 1]);
      assert hex[i..][2..] == hex[i + 2..];
      if hi < 0 || lo < 0 { return None; }
      var b: byte := hi * 16 + lo;
      PrependMore(out, b, Unhex(hex[i + 2..]));
      out := out + [b];
      i := i + 2;
    }
    assert out + [] == out;
    return Some(out);
  }

  ghost function Prepend(out: seq<byte>, r: Option<seq<byte>>): Option<seq<byte>> {
    match r
    case None => None
    case Some(rest) => Some(out + rest)
  }

  lemma PrependMore(out: seq<byte>, b: byte, r: Option<seq<byte>>)
    ensures Prepend(out, Prepend([b], r)) == Prepend(out + [b], r)
  {
    if r.Some? {
      assert out + ([b] + r.value) == out + [b] + r.value;
    }
  }

  lemma ColonIs(line: string, from: nat, k: int)
    requires k == -1 || from <= k < |line|
    requires k >= 0 ==> line[k] == ':' && forall i | from <= i < k :: line[i] != ':'
    requires k < 0 ==> forall i | from <= i < |line| :: line[i] != ':'
    ensures Colon(line, from) == k
  {
  }

  /** The first three colons. */
  method FindColons(line: string) returns (c1: int, c2: int, c3: int)
    ensures c1 == Colon(line, 0)
    ensures c2 == if c1 < 0 then -1 else Colon(line, c1 + 1)
    ensures c3 == if c2 < 0 then -1 else Colon(line, c2 + 1)
  {
    hide Colon;
    c1, c2, c3 := -1, -1, -1;
    var i := 0;
    while i < |line|
      invariant 0 <= i <= |line| && -1 <= c1 < i && (c2 >= 0 ==> 0 <= c1 < c2 < i) && c3 == -1
      invariant c1 < 0 ==> c2 < 0 && forall j | 0 <= j < i :: line[j] != ':'
      invariant c1 >= 0 ==> line[c1] == ':' && forall j | 0 <= j < c1 :: line[j] != ':'
      invariant c1 >= 0 && c2 < 0 ==> c2 == -1 && forall j | c1 < j < i :: line[j] != ':'
      invariant c2 < 0 ==> c2 == -1
      invariant c2 >= 0 ==> line[c2] == ':' && (forall j | c1 < j < c2 :: line[j] != ':') && forall j | c2 < j < i ::
                line[j] != ':'
    {
      if line[i] == ':' {
        if c1 < 0 {
          c1 := i;
        } else if c2 < 0 {
          c2 := i;
        } else {
          c3 := i;
          break;
        }
      }
      i := i + 1;
    }
    ColonIs(line, 0, c1);
    if c1 >= 0 { ColonIs(line, c1 + 1, c2); }
    if c2 >= 0 { ColonIs(line, c2 + 1, c3); }
  }

  method ReadLine(line: string) returns (r: Option<User>)
    requires line != []
    ensures r == ParseLine(line)
  {
    if line[0] == '#' { return None; }
    var c1, c2, c3 := FindColons(line);
    if c1 < 0 { return None; }
    if c1 <= 0 || c1 >= MAX_NAME { return None; }
    var salt, hash, admin := Zeros(SALT_SIZE), line[c1 + 1..], false;
    if c2 > 0 {
      if c3 > 0 {
        hash := line[c2 + 1..c3];
        if c3 + 1 < |line| { admin := line[c3 + 1] == '1'; }
      } else {
        hash := line[c2 + 1..];
      }
      if c2 - c1 - 1 != 2 * SALT_SIZE { return None; }
      var s := DecodeHex(line[c1 + 1..c2]);
      if s.None? { return None; }
      salt := s.value;
    }
    if |hash| == 1 && hash[0] == '*' { return None; }
    if |hash| != 2 * HASH_SIZE { return None; }
    var h := DecodeHex(hash);
    if h.None? { return None; }
    return Some(User(CString(line[..c1]), salt, h.value, admin));
  }

  const NOBODY := Entry(false, User("", [], [], false))

  class PasswordStore {
    var db: seq<Entry>
    var count: nat

    /** The text holds every used entry: all 64 fit the buffer. */
    method Save() returns (text: string)
      requires IsTable(db)
      ensures text == Printed(db) && |text| <= BUFFER - MARGIN
    {
      hide Line;
      text := "";
      var i := 0;
      while i < |db| && |text| < BUFFER - MARGIN
        invariant 0 <= i <= |db| && text == Printed(db[..i]) && |text| <= 116 * i
      {
        var e := db[i];
        assert db[..i + 1] == db[..i] + [e];
        PrintedMore(db[..i], e);
        if e.used {
          var salt := EncodeHex(e.user.salt);
          var hash := EncodeHex(e.user.hash);
          LineIs(e.user);
          text := text + (e.user.name + ":" + salt + ":" + hash + ":" + (if e.user.admin then "1" else "0") + "\n");
        }
        i := i + 1;
      }
      assert db[..|db|] == db;
    }

    /** The entries behind the last one are unused. */
    ghost predicate Tidy()
      reads this
    {
      count <= |db| == MAX_USERS && forall i | count <= i < MAX_USERS :: !db[i].used
    }

    /** The next free slot takes a user. */
    method Enter(u: User)
      requires Tidy() && count < MAX_USERS
      modifies this
      ensures Tidy() && count == old(count) + 1 && db[..count] == old(db[..count]) + [Entry(true, u)]
    {
      db := db[count := Entry(true, u)];
      count := count + 1;
    }

    /** Replaces the table by what the file says; an empty file changes nothing. */
    method Load(file: string)
      requires |db| == MAX_USERS
      modifies this
      ensures |db| == MAX_USERS
      ensures file == [] ==> unchanged(this)
      ensures var us := Parse(file[..if |file| > BUFFER then BUFFER else |file|], 0);
              file != [] ==> count == |us| <= MAX_USERS && db[..count] == Entries(us) && Tidy()
    {
      hide Parse, ParseLine, LineEnd, Entries;
      if file == [] { return; }
      var buf := file[..if |file| > BUFFER then BUFFER else |file|];
      db := seq(MAX_USERS, _ => NOBODY);
      count := 0;
      ghost var us: seq<User> := [];
      var pos := 0;
      assert buf[0..] == buf && Entries(us) == [];
      while pos < |buf| && count < MAX_USERS
        invariant 0 <= pos <= |buf| && |us| == count && Tidy() && db[..count] == Entries(us)
        invariant Parse(buf, 0) == us + Parse(buf[pos..], count)
        decreases |buf| - pos
      {
        if buf[pos] == '\n' || buf[pos] == '\r' {
          ParseSkip(buf, pos, count);
          pos := pos + 1;
          continue;
        }
        var start := pos;
        pos := EndOfLine(buf, pos);
        ParseStep(buf, start, pos, count);
        var r := ReadLine(buf[start..pos]);
        if r.Some? {
          var u := r.value.(admin := count == 0 || r.value.admin);
          Reassociate(us, u, Parse(buf[pos..], count + 1));
          EntriesMore(us, u);
          Enter(u);
          us := us + [u];
        }
      }
      ParseDone(buf[pos..], count);
      assert us + [] == us;
    }

    /** A restart: what was saved is loaded. Without any user there is nothing to load. */
    method Restart()
      requires IsTable(db) && |db| == MAX_USERS
      modifies this
      ensures |db| == MAX_USERS
      ensures Printed(old(db)) != [] && AllWellNamed(old(db)) ==>
                && count == |Expected(old(db), 0)| <= MAX_USERS && db[..count] == Entries(Expected(old(db), 0))
                      && Tidy()
    {
      var text := Save();
      assert text[..|text|] == text;
      ReadsBackIff(db);
      Load(text);
    }
  }

  lemma Reassociate(us: seq<User>, u: User, rest: seq<User>)
    ensures us + ([u] + rest) == us + [u] + rest
  {
  }

  lemma ParseSkip(buf: string, pos: nat, slot: nat)
    requires pos < |buf| && IsBreak(buf[pos]) && slot < MAX_USERS
    ensures Parse(buf[pos..], slot) == Parse(buf[pos + 1..], slot)
  {
  }

  lemma ParseStep(buf: string, start: nat, pos: nat, slot: nat)
    requires start < pos <= |buf| && !IsBreak(buf[start]) && pos - start == LineEnd(buf[start..]) && slot < MAX_USERS
    ensures Parse(buf[start..], slot) ==
            match ParseLine(buf[start..pos])
            case None => Parse(buf[pos..], slot)
            case Some(u) => [u.(admin := slot == 0 || u.admin)] + Parse(buf[pos..], slot + 1)
  {
    hide ParseLine;
    var text := buf[start..];
    assert text[..pos - start] == buf[start..pos] && text[pos - start..] == buf[pos..];
  }

  lemma ParseDone(text: string, slot: nat)
    requires text == [] || slot >= MAX_USERS
    ensures Parse(text, slot) == []
  {
  }

  method EndOfLine(buf: string, start: nat) returns (pos: nat)
    requires start < |buf| && !IsBreak(buf[start])
    ensures start < pos <= |buf| && pos - start == LineEnd(buf[start..])
  {
    pos := start;
    while pos < |buf| && buf[pos] != '\n' && buf[pos] != '\r'
      invariant start <= pos <= |buf| && LineEnd(buf[start..]) == pos - start + LineEnd(buf[pos..])
    {
      assert buf[pos..][1..] == buf[pos + 1..];
      pos := pos + 1;
    }
  }

  lemma {:induction false} PrintedMore(db: seq<Entry>, e: Entry)
    ensures Printed(db + [e]) == Printed(db) + if e.used then Line(e.user) else ""
  {
    hide Line;
    if db == [] {
      assert [e][1..] == [] && db + [e] == [e];
    } else {
      PrintedMore(db[1..], e);
      assert (db + [e])[1..] == db[1..] + [e];
    }
  }

  lemma LineIs(u: User)
    ensures Line(u) == u.name + ":" + Hex(u.salt) + ":" + Hex(u.hash) + ":" + (if u.admin then "1" else "0") + "\n"
  {
  }
}
