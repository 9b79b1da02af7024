/** The decoder of the initial RAM disk, a cpio archive in the "newc" format (kernel/src/fs/initrd.c:24-95,
    199-260), and the archives that it is made for.  Characters stand for bytes.  */
module Cpio {
  import opened Common

  const HEADER: nat := 110
  const MAGIC: seq<char> := "070701"
  const TRAILER: seq<char> := "TRAILER!!!"
  const PATH_MAX: nat := 4096
  const NUL: char := '\0'

  /** What the decoder asks the file system to make. */
  datatype Action = MakeDir(path: seq<char>, mode: nat) | MakeFile(path: seq<char>, mode: nat, data: seq<char>)

  // ---- numbers ----

  function Digit(c: char): Option<nat> {
    if '0' <= c <= '9' then Some((c as int) - ('0' as int))
    else if 'a' <= c <= 'f' then Some((c as int) - ('a' as int) + 10)
    else if 'A' <= c <= 'F' then Some((c as int) - ('A' as int) + 10)
    else None
  }

  /** The number that hexadecimal digits write, in 32 bits. */
  function HexValue(s: seq<char>): Option<nat> {
    if s == [] then Some(0)
    else
      match (HexValue(s[..|s| - 1]), Digit(s[|s| - 1]))
      case (Some(v), Some(d)) => Some((v * 16) % 0x1_0000_0000 + d)
      case _ => None
  }

  /** `initrd_parse_hex` */
  method ParseHex(hex: seq<char>) returns (ok: bool, value: nat)
    ensures ok <==> HexValue(hex).Some?
    ensures ok ==> value == HexValue(hex).value
    ensures ok <==> AllDigits(hex)
    ensures ok && |hex| <= 8 ==> Writes(hex, value)
  {
    FieldMeans(hex);
    hide AllDigits;
    hide Writes;
    hide Digit;
    value := 0;
    for i := 0 to |hex|
      invariant HexValue(hex[..i]) == Some(value)
    {
      assert hex[..i + 1][..i] == hex[..i];
      var digit := Digit(hex[i]);
      if digit.None? {
        NoValue(hex, i + 1);
        return false, 0;
      }
      value := (value * 16) % 0x1_0000_0000 + digit.value;
    }
    assert hex[..|hex|] == hex;
    ok := true;
  }

  lemma FieldMeans(s: seq<char>)
    ensures HexValue(s).Some? <==> AllDigits(s)
    ensures |s| <= 8 ==> forall n: nat :: HexValue(s) == Some(n) <==> Writes(s, n)
  {
    NumberIsDigits(s);
    forall n: nat | |s| <= 8
      ensures HexValue(s) == Some(n) <==> Writes(s, n)
    {
      ValueIsWritten(s, n);
    }
  }

  lemma {:induction false} NumberIsDigits(s: seq<char>)
    ensures HexValue(s).Some? <==> AllDigits(s)
  {
    if s != [] {
      var k := |s| - 1;
      NumberIsDigits(s[..k]);
      IsDigit(s[k]);
      assert s == s[..k] + [s[k]];
      hide Digit;
    }
  }

  lemma IsDigit(c: char)
    ensures Digit(c).Some? <==> c in LOWER || c in UPPER
  {
    if Digit(c).Some? {
      DigitIsSmall(c);
      DigitStands(c, Digit(c).value);
    } else if c in LOWER {
      var d: nat :| d < 16 && LOWER[d] == c;
      OneDigit(c, d);
    } else if c in UPPER {
      var d: nat :| d < 16 && UPPER[d] == c;
      OneDigit(c, d);
    }
  }

  lemma {:induction false} NoValue(hex: seq<char>, i: nat)
    requires i <= |hex| && HexValue(hex[..i]).None?
    ensures HexValue(hex).None?
    decreases |hex| - i
  {
    if i == |hex| {
      assert hex[..i] == hex;
    } else {
      assert hex[..i + 1][..i] == hex[..i];
      NoValue(hex, i + 1);
    }
  }

  const LOWER: seq<char> := "0123456789abcdef"
  const UPPER: seq<char> := "0123456789ABCDEF"

  /** A digit of either case. */
  predicate Stands(c: char, d: nat) {
    d < 16 && (c == LOWER[d] || c == UPPER[d])
  }

  /** The digits write `n`: the last stands for its lowest four bits, and those before it write the others. */
  predicate Writes(s: seq<char>, n: nat) {
    if s == [] then n == 0 else Stands(s[|s| - 1], n % 16) && Writes(s[..|s| - 1], n / 16)
  }

  predicate AllDigits(s: seq<char>) {
    forall i | 0 <= i < |s| :: s[i] in LOWER || s[i] in UPPER
  }

  /** `n` in exactly `k` digits of one case, most significant first. */
  function Hex(n: nat, k: nat, lower: bool): (s: seq<char>)
    ensures |s| == k
  {
    if k == 0 then [] else Hex(n / 16, k - 1, lower) + [if lower then LOWER[n % 16] else UPPER[n % 16]]
  }

  lemma DigitStands(c: char, d: nat)
    ensures Digit(c) == Some(d) <==> Stands(c, d)
  {
    if Stands(c, d) {
      OneDigit(c, d);
    }
  }

  lemma OneDigit(c: char, d: nat)
    requires Stands(c, d)
    ensures Digit(c) == Some(d)
  {
    if d < 10 {
      assert LOWER[d] == ('0' as int + d) as char == UPPER[d];
    } else {
      assert LOWER[d] == ('a' as int + d - 10) as char && UPPER[d] == ('A' as int + d - 10) as char;
    }
  }

  /** A field of up to eight characters is a number exactly if it writes one, and then it is that number. */
  lemma {:induction false} ValueIsWritten(s: seq<char>, n: nat)
    requires |s| <= 8
    ensures HexValue(s) == Some(n) <==> Writes(s, n)
    ensures HexValue(s).Some? ==> HexValue(s).value < Pow16(|s|)
  {
    if s != [] {
      var k := |s| - 1;
      ValueIsWritten(s[..k], n / 16);
      DigitStands(s[k], n % 16);
      DigitIsSmall(s[k]);
      Pow16Bound(k);
      assert Pow16(|s|) == 16 * Pow16(k);
      hide Digit;
      hide Stands;
      hide Pow16;
      if HexValue(s[..k]).Some? && Digit(s[k]).Some? {
        LastDigit(HexValue(s[..k]).value, Digit(s[k]).value, n, Pow16(k));
      }
    }
  }

  lemma LastDigit(v: nat, d: nat, n: nat, p: nat)
    requires v < p <= 0x1000_0000 && d < 16
    ensures (v * 16) % 0x1_0000_0000 + d == n <==> v == n / 16 && d == n % 16
    ensures (v * 16) % 0x1_0000_0000 + d < 16 * p
  {
  }

  lemma DigitIsSmall(c: char)
    ensures Digit(c).Some? ==> Digit(c).value < 16
  {
  }

  function Pow16(k: nat): nat {
    if k == 0 then 1 else 16 * Pow16(k - 1)
  }

  /** Eight digits are read back, and no bit is lost on the way. */
  lemma {:induction false} HexRoundTrip(n: nat, k: nat, lower: bool)
    requires k <= 8 && n < Pow16(k)
    ensures HexValue(Hex(n, k, lower)) == Some(n)
  {
    if k > 0 {
      HexRoundTrip(n / 16, k - 1, lower);
      Pow16Bound(k - 1);
      OneDigitMore(Hex(n / 16, k - 1, lower), n / 16, if lower then LOWER[n % 16] else UPPER[n % 16], n % 16);
    }
  }

  lemma OneDigitMore(s: seq<char>, v: nat, c: char, d: nat)
    requires HexValue(s) == Some(v) && v < 0x1000_0000 && Stands(c, d)
    ensures HexValue(s + [c]) == Some(16 * v + d)
  {
    assert (s + [c])[..|s|] == s;
    DigitStands(c, d);
  }

  lemma Pow16Bound(k: nat)
    requires k <= 7
    ensures Pow16(k) <= 0x1000_0000
  {
    assert Pow16(1) == 16 && Pow16(2) == 256 && Pow16(3) == 4096 && Pow16(4) == 0x1_0000;
    assert Pow16(5) == 0x10_0000 && Pow16(6) == 0x100_0000 && Pow16(7) == 0x1000_0000;
  }

  /** `initrd_align4` */
  function Align4(v: nat): nat {
    (v + 3) / 4 * 4
  }

  /** The least multiple of four that is not below. */
  lemma Align4IsLeast(v: nat, b: nat)
    ensures Align4(v) % 4 == 0 && v <= Align4(v)
    ensures b % 4 == 0 && v <= b ==> Align4(v) <= b
  {
  }

  // ---- names ----

  /** The characters before the first NUL; all of them if there is none, where the C code reads on behind the
      buffer. */
  function CString(s: seq<char>): (r: seq<char>)
    ensures |r| <= |s| && NUL !in r
  {
    if s == [] || s[0] == NUL then [] else [s[0]] + CString(s[1..])
  }

  lemma {:induction false} CStringOf(name: seq<char>, rest: seq<char>)
    requires NUL !in name
    ensures CString(name + [NUL] + rest) == name
  {
    var s := name + [NUL] + rest;
    if name != [] {
      assert s[1..] == name[1..] + [NUL] + rest;
      CStringOf(name[1..], rest);
    }
  }

  /** The absolute path of a name: leading "./" go, and "." alone is no path at all. */
  function Normal(name: seq<char>): seq<char> {
    if name == "." then ""
    else if |name| >= 2 && name[0] == '.' && name[1] == '/' then Normal(name[2..])
    else "/" + name
  }

  /** The path as it fits in the buffer, with the final NUL. */
  function Fitted(path: seq<char>): seq<char> {
    if |path| < PATH_MAX then path else path[..PATH_MAX - 1]
  }

  /** `initrd_normalize_path` into a buffer of PATH_MAX characters; `name` is followed by a NUL. */
  method NormalizePath(name: seq<char>, path: array<char>) returns (len: nat)
    requires path.Length == PATH_MAX && NUL !in name
    modifies path
    ensures len < PATH_MAX && path[..len] == Fitted(Normal(name)) && path[len] == NUL
  {
    var src := 0;
    assert name[0..] == name;
    while src < |name| && name[src] == '.' && (src + 1 == |name| || name[src + 1] == '/')
      invariant 0 <= src <= |name| && Normal(name[src..]) == Normal(name)
    {
      if src + 1 == |name| {
        assert name[src..] == ".";
        path[0] := NUL;
        return 0;
      }
      assert name[src..][2..] == name[src + 2..];
      src := src + 2;
    }
    assert Normal(name[src..]) == "/" + name[src..];
    path[0] := '/';
    len := CopyName(name[src..], path);
  }

  /** The copying loop of `initrd_normalize_path`: `rest` is what is left of the name. */
  method CopyName(rest: seq<char>, path: array<char>) returns (len: nat)
    requires path.Length == PATH_MAX && path[0] == '/'
    modifies path
    ensures len < PATH_MAX && path[..len] == Fitted("/" + rest) && path[len] == NUL
  {
    len := 1;
    assert path[..1] == "/" && "/" + rest[..0] == "/";
    while len - 1 < |rest| && len + 1 < PATH_MAX
      invariant 1 <= len < PATH_MAX && len - 1 <= |rest| && path[..len] == "/" + rest[..len - 1]
    {
      path[len] := rest[len - 1];
      assert rest[..len] == rest[..len - 1] + [rest[len - 1]];
      len := len + 1;
    }
    assert "/" + rest[..len - 1] == ("/" + rest)[..len];
    assert |rest| < PATH_MAX - 1 ==> rest[..len - 1] == rest;
    path[len] := NUL;
  }

  // ---- the archive ----

  datatype Scan = Scan(ok: bool, actions: seq<Action>)

  predicate IsDir(mode: nat) {
    (mode / 0x1000) % 16 == 4
  }

  predicate IsReg(mode: nat) {
    (mode / 0x1000) % 16 == 8
  }

  /** What an entry asks for: nothing for "." and for other kinds of files. */
  function Asked(name: seq<char>, mode: nat, data: seq<char>): seq<Action> {
    var path := Fitted(Normal(name));
    if path == "" then []
    else if IsDir(mode) then [MakeDir(path, mode)]
    else if IsReg(mode) then [MakeFile(path, mode, data)]
    else []
  }

  /** An entry of the archive: the fields that matter, the other numbers of its header, and the case of its digits. */
  datatype Entry = Entry(mode: nat, name: seq<char>, data: seq<char>, ino: nat, uid: nat, gid: nat, nlink: nat,
                         mtime: nat, dev: (nat, nat), rdev: (nat, nat), check: nat, lower: bool)

  predicate Fits(n: nat) {
    n < 0x1_0000_0000
  }

  /** What the format can hold. */
  predicate EntryOk(e: Entry) {
    && Fits(e.mode) && Fits(|e.name| + 1) && Fits(|e.data|) && NUL !in e.name
    && Fits(e.ino) && Fits(e.uid) && Fits(e.gid) && Fits(e.nlink) && Fits(e.mtime)
    && Fits(e.dev.0) && Fits(e.dev.1) && Fits(e.rdev.0) && Fits(e.rdev.1) && Fits(e.check)
  }

  function Zeros(n: nat): (z: seq<char>)
    ensures |z| == n
  {
    seq(n, _ => NUL)
  }

  function Before(e: Entry): (s: seq<char>)
    ensures |s| == 14 && s[..6] == MAGIC
  {
    MAGIC + Hex(e.ino, 8, e.lower)
  }

  function Between(e: Entry): (s: seq<char>)
    ensures |s| == 32
  {
    Hex(e.uid, 8, e.lower) + Hex(e.gid, 8, e.lower) + Hex(e.nlink, 8, e.lower) + Hex(e.mtime, 8, e.lower)
  }

  function Devices(e: Entry): (s: seq<char>)
    ensures |s| == 32
  {
    Hex(e.dev.0, 8, e.lower) + Hex(e.dev.1, 8, e.lower) + Hex(e.rdev.0, 8, e.lower) + Hex(e.rdev.1, 8, e.lower)
  }

  function Header(e: Entry): (s: seq<char>)
    ensures |s| == HEADER
  {
    Before(e) + Hex(e.mode, 8, e.lower) + Between(e) + Hex(|e.data|, 8, e.lower) + Devices(e) + Hex(|e.name| + 1, 8, e.lower) + Hex(e.check, 8, e.lower)
  }

  /** Header, name and NUL, and data, the last two filled up to multiples of four. */
  function Encode(e: Entry): (s: seq<char>)
    ensures |s| == Align4(HEADER + |e.name| + 1) + Align4(|e.data|)
  {
    Header(e) + e.name + [NUL] + Zeros(Align4(HEADER + |e.name| + 1) - (HEADER + |e.name| + 1))
    + e.data + Zeros(Align4(|e.data|) - |e.data|)
  }

  /** Entries one after the other, and the entry that ends the archive. */
  function Archive(es: seq<Entry>, last: Entry): seq<char> {
    if es == [] then Encode(last) else Encode(es[0]) + Archive(es[1..], last)
  }

  function AllAsked(es: seq<Entry>): seq<Action> {
    if es == [] then [] else Asked(es[0].name, es[0].mode, es[0].data) + AllAsked(es[1..])
  }

  // ---- decoding ----

  datatype Parsed = Broken | Parsed(mode: nat, name: seq<char>, data: seq<char>, size: nat)

  /** One turn of the loop of `initrd_unpack` on what is left of the archive: `size` characters are used up. */
  function ParseEntry(r: seq<char>): (p: Parsed)
    requires |r| >= HEADER
    ensures p.Parsed? ==> p.size >= HEADER && NUL !in p.name
  {
    var mode, fileSize, nameSize := HexValue(r[14..22]), HexValue(r[54..62]), HexValue(r[94..102]);
    if r[..6] != MAGIC || mode.None? || nameSize.None? || nameSize.value == 0 || fileSize.None? then Broken
    else if HEADER + nameSize.value > |r| then Broken
    else
      var d := Align4(HEADER + nameSize.value);
      if d + fileSize.value > |r| then Broken
      else Parsed(mode.value, CString(r[HEADER..]), r[d..d + fileSize.value], d + Align4(fileSize.value))
  }

  /** The loop: entries up to the trailer, or to the first broken one, or to the end. */
  function ScanAll(r: seq<char>): Scan
    decreases |r|
  {
    if |r| < HEADER then Scan(true, [])
    else
      var p := ParseEntry(r);
      if p.Broken? then Scan(false, [])
      else if p.name == TRAILER then Scan(true, [])
      else
        var rest := if p.size <= |r| then ScanAll(r[p.size..]) else Scan(true, []);
        Scan(rest.ok, Asked(p.name, p.mode, p.data) + rest.actions)
  }

  /** The checks of one turn of the loop of `initrd_unpack`. */
  method ParseAt(buffer: seq<char>, cursor: nat) returns (p: Parsed)
    requires cursor + HEADER <= |buffer|
    ensures p == ParseEntry(buffer[cursor..])
  {
    hide AllDigits;
    hide Writes;
    ghost var r := buffer[cursor..];
    Slices(buffer, cursor);
    if buffer[cursor..cursor + 6] != MAGIC {
      return Broken;
    }
    var ok, mode, nameSize, fileSize;
    ok, mode := ParseHex(buffer[cursor + 14..cursor + 22]);
    if !ok {
      return Broken;
    }
    ok, nameSize := ParseHex(buffer[cursor + 94..cursor + 102]);
    if !ok || nameSize == 0 {
      return Broken;
    }
    ok, fileSize := ParseHex(buffer[cursor + 54..cursor + 62]);
    if !ok {
      return Broken;
    }
    if cursor + HEADER + nameSize > |buffer| {
      return Broken;
    }
    var d := Align4(HEADER + nameSize);
    if cursor + d + fileSize > |buffer| {
      return Broken;
    }
    assert buffer[cursor + d..cursor + d + fileSize] == r[d..d + fileSize];
    return Parsed(mode, CString(buffer[cursor + HEADER..]), buffer[cursor + d..cursor + d + fileSize], d + Align4(fileSize));
  }

  /** `initrd_unpack`, with the file system calls written down instead of made. */
  method Unpack(buffer: seq<char>) returns (rc: int, actions: seq<Action>)
    ensures |buffer| == 0 ==> rc == -1 && actions == []
    ensures |buffer| > 0 ==> Scan(rc == 0, actions) == ScanAll(buffer) && (rc == 0 || rc == -1)
  {
    hide Asked;
    hide ParseEntry;
    hide ScanAll;
    hide Remaining;
    actions := [];
    if |buffer| == 0 {
      return -1, [];
    }
    var path := new char[PATH_MAX];
    var cursor := 0;
    AllRemains(buffer);
    while cursor + HEADER <= |buffer|
      invariant 0 <= cursor && Remaining(buffer, cursor, actions)
      decreases |buffer| - cursor
    {
      var p := ParseAt(buffer, cursor);
      if p.Broken? || p.name == TRAILER {
        Ended(buffer, cursor, actions);
        return if p.Broken? then -1 else 0, actions;
      }
      var asked := Make(p.name, p.mode, p.data, path);
      Turn(buffer, cursor, actions, p);
      actions := actions + asked;
      cursor := cursor + p.size;
    }
    Ended(buffer, cursor, actions);
    return 0, actions;
  }

  /** What the loop has found so far is the beginning of what there is. */
  ghost predicate Remaining(buffer: seq<char>, cursor: nat, actions: seq<Action>) {
    if cursor <= |buffer| then
      ScanAll(buffer) == Scan(ScanAll(buffer[cursor..]).ok, actions + ScanAll(buffer[cursor..]).actions)
    else ScanAll(buffer) == Scan(true, actions)
  }

  lemma AllRemains(buffer: seq<char>)
    ensures Remaining(buffer, 0, [])
  {
    assert buffer[0..] == buffer;
  }

  /** Nothing more is found at a broken entry, at the trailer, or at the end. */
  lemma Ended(buffer: seq<char>, cursor: nat, actions: seq<Action>)
    requires Remaining(buffer, cursor, actions)
    requires cursor + HEADER <= |buffer| ==>
      var p := ParseEntry(buffer[cursor..]); p.Broken? || p.name == TRAILER
    ensures ScanAll(buffer) ==
      Scan(cursor + HEADER > |buffer| || ParseEntry(buffer[cursor..]).Parsed?, actions)
  {
    hide ParseEntry;
  }

  lemma Turn(buffer: seq<char>, cursor: nat, actions: seq<Action>, p: Parsed)
    requires Remaining(buffer, cursor, actions) && cursor + HEADER <= |buffer|
    requires p == ParseEntry(buffer[cursor..]) && p.Parsed? && p.name != TRAILER
    ensures Remaining(buffer, cursor + p.size, actions + Asked(p.name, p.mode, p.data))
  {
    hide Asked;
    hide ParseEntry;
    var r := buffer[cursor..];
    if p.size <= |r| {
      assert r[p.size..] == buffer[cursor + p.size..];
    }
  }

  lemma Slices(buffer: seq<char>, c: nat)
    requires c + HEADER <= |buffer|
    ensures var r := buffer[c..];
      && r[..6] == buffer[c..c + 6] && r[14..22] == buffer[c + 14..c + 22] && r[54..62] == buffer[c + 54..c + 62]
      && r[94..102] == buffer[c + 94..c + 102] && r[HEADER..] == buffer[c + HEADER..]
  {
  }

  /** The handling of one entry. */
  method Make(name: seq<char>, mode: nat, data: seq<char>, path: array<char>) returns (asked: seq<Action>)
    requires path.Length == PATH_MAX && NUL !in name
    modifies path
    ensures asked == Asked(name, mode, data)
  {
    var len := NormalizePath(name, path);
    if path[0] == NUL {
      EmptyPath(name, len);
      return [];
    }
    var p := path[..len];
    if IsDir(mode) {
      return [MakeDir(p, mode)];
    } else if IsReg(mode) {
      return [MakeFile(p, mode, data)];
    }
    return [];
  }

  lemma EmptyPath(name: seq<char>, len: nat)
    requires NUL !in name
    ensures NUL !in Normal(name) && NUL !in Fitted(Normal(name))
  {
    if name != "." && |name| >= 2 && name[0] == '.' && name[1] == '/' {
      EmptyPath(name[2..], len);
    }
  }

  // ---- the archives that the decoder is made for ----

  lemma Number(n: nat, lower: bool)
    requires Fits(n)
    ensures HexValue(Hex(n, 8, lower)) == Some(n)
  {
    assert Pow16(8) == 0x1_0000_0000 by {
      assert Pow16(1) == 16 && Pow16(2) == 256 && Pow16(3) == 4096 && Pow16(4) == 0x1_0000;
      assert Pow16(5) == 0x10_0000 && Pow16(6) == 0x100_0000 && Pow16(7) == 0x1000_0000;
    }
    HexRoundTrip(n, 8, lower);
  }

  /** The header of the format: the magic number, then thirteen fields of eight digits in this order. */
  lemma HeaderFields(e: Entry)
    ensures var h := Header(e);
      && h[..6] == "070701" && h[6..14] == Hex(e.ino, 8, e.lower) && h[14..22] == Hex(e.mode, 8, e.lower)
      && h[22..30] == Hex(e.uid, 8, e.lower) && h[30..38] == Hex(e.gid, 8, e.lower)
      && h[38..46] == Hex(e.nlink, 8, e.lower) && h[46..54] == Hex(e.mtime, 8, e.lower)
      && h[54..62] == Hex(|e.data|, 8, e.lower)
      && h[62..70] == Hex(e.dev.0, 8, e.lower) && h[70..78] == Hex(e.dev.1, 8, e.lower)
      && h[78..86] == Hex(e.rdev.0, 8, e.lower) && h[86..94] == Hex(e.rdev.1, 8, e.lower)
      && h[94..102] == Hex(|e.name| + 1, 8, e.lower) && h[102..110] == Hex(e.check, 8, e.lower)
  {
    var h := Header(e);
    HeaderParts(e);
    Quarters(h, 22, Between(e));
    Quarters(h, 62, Devices(e));
    Part(h, 0, 14, 0, 6);
    Part(h, 0, 14, 6, 14);
    hide Hex;
    hide Header;
    assert Before(e)[6..14] == Hex(e.ino, 8, e.lower);
    BetweenFields(e);
    DeviceFields(e);
  }

  lemma BetweenFields(e: Entry)
    ensures var c := Between(e);
      && c[..8] == Hex(e.uid, 8, e.lower) && c[8..16] == Hex(e.gid, 8, e.lower)
      && c[16..24] == Hex(e.nlink, 8, e.lower) && c[24..] == Hex(e.mtime, 8, e.lower)
  {
    hide Hex;
  }

  lemma DeviceFields(e: Entry)
    ensures var c := Devices(e);
      && c[..8] == Hex(e.dev.0, 8, e.lower) && c[8..16] == Hex(e.dev.1, 8, e.lower)
      && c[16..24] == Hex(e.rdev.0, 8, e.lower) && c[24..] == Hex(e.rdev.1, 8, e.lower)
  {
    hide Hex;
  }

  lemma HeaderParts(e: Entry)
    ensures var h := Header(e);
      && h[0..14] == Before(e) && h[14..22] == Hex(e.mode, 8, e.lower) && h[22..54] == Between(e)
      && h[54..62] == Hex(|e.data|, 8, e.lower) && h[62..94] == Devices(e)
      && h[94..102] == Hex(|e.name| + 1, 8, e.lower) && h[102..110] == Hex(e.check, 8, e.lower)
  {
    var h := Header(e);
    var a, b, c, d, f := Before(e), Hex(e.mode, 8, e.lower), Between(e), Hex(|e.data|, 8, e.lower), Devices(e);
    var g, i := Hex(|e.name| + 1, 8, e.lower), Hex(e.check, 8, e.lower);
    assert h[..110] == h == a + b + c + d + f + g + i;
    hide *;
    LastPart(a + b + c + d + f + g, i, h);
    LastPart(a + b + c + d + f, g, h);
    LastPart(a + b + c + d, f, h);
    LastPart(a + b + c, d, h);
    LastPart(a + b, c, h);
    LastPart(a, b, h);
    assert h[0..14] == h[..14];
  }

  /** Where the last part of a beginning of `h` lies. */
  lemma LastPart(x: seq<char>, y: seq<char>, h: seq<char>)
    requires |x| + |y| <= |h| && h[..|x| + |y|] == x + y
    ensures h[|x|..|x| + |y|] == y && h[..|x|] == x
  {
    Part(h, 0, |x| + |y|, |x|, |x| + |y|);
    Part(h, 0, |x| + |y|, 0, |x|);
  }

  lemma Quarters(h: seq<char>, at: nat, c: seq<char>)
    requires |c| == 32 && at + 32 <= |h| && h[at..at + 32] == c
    ensures h[at..at + 8] == c[..8] && h[at + 8..at + 16] == c[8..16] && h[at + 16..at + 24] == c[16..24]
    ensures h[at + 24..at + 32] == c[24..]
  {
    Part(h, at, 32, 0, 8);
    Part(h, at, 32, 8, 16);
    Part(h, at, 32, 16, 24);
    Part(h, at, 32, 24, 32);
  }

  lemma Part(h: seq<char>, at: nat, n: nat, i: nat, j: nat)
    requires i <= j <= n && at + n <= |h|
    ensures h[at..at + n][i..j] == h[at + i..at + j]
  {
    var a, b := h[at..at + n][i..j], h[at + i..at + j];
    assert |a| == |b| && forall k | 0 <= k < |a| :: a[k] == b[k];
  }

  /** An encoded entry and what follows it, cut up as the decoder does. */
  lemma EntrySlices(e: Entry, rest: seq<char>)
    ensures var r, d := Encode(e) + rest, Align4(HEADER + |e.name| + 1);
      && |r| >= HEADER && r[..HEADER] == Header(e) && d + |e.data| <= |r| && r[d..d + |e.data|] == e.data
      && exists more :: r[HEADER..] == e.name + [NUL] + more
  {
    var r, h := Encode(e) + rest, Header(e);
    hide Header;
    var d := Align4(HEADER + |e.name| + 1);
    var pad1, pad2 := Zeros(d - (HEADER + |e.name| + 1)), Zeros(Align4(|e.data|) - |e.data|);
    hide Zeros;
    var more := pad1 + e.data + pad2 + rest;
    assert r == h + (e.name + [NUL] + more);
    assert r[HEADER..] == e.name + [NUL] + more;
    var front := h + e.name + [NUL] + pad1;
    assert |front| == d && r == front + e.data + (pad2 + rest);
    assert r[d..d + |e.data|] == e.data;
  }

  lemma EntryFacts(e: Entry)
    requires EntryOk(e)
    ensures Fits(e.mode) && Fits(|e.name| + 1) && Fits(|e.data|) && NUL !in e.name
  {
  }

  lemma Prefix(r: seq<char>, h: seq<char>)
    requires |r| >= HEADER == |h| && r[..HEADER] == h
    ensures r[..6] == h[..6] && r[14..22] == h[14..22] && r[54..62] == h[54..62] && r[94..102] == h[94..102]
  {
  }

  /** What the decoder makes of an entry whose parts are where they should be. */
  lemma PartsParsed(r: seq<char>, mode: nat, name: seq<char>, data: seq<char>)
    requires |r| >= HEADER && r[..6] == MAGIC && HexValue(r[14..22]) == Some(mode)
    requires HexValue(r[54..62]) == Some(|data|) && HexValue(r[94..102]) == Some(|name| + 1)
    requires CString(r[HEADER..]) == name
    requires var d := Align4(HEADER + |name| + 1); d + |data| <= |r| && r[d..d + |data|] == data
    ensures ParseEntry(r) == Parsed(mode, name, data, Align4(HEADER + |name| + 1) + Align4(|data|))
  {
  }

  /** A well-formed entry is read back, whatever follows it. */
  lemma EntryRoundTrip(e: Entry, rest: seq<char>)
    requires EntryOk(e)
    ensures |Encode(e)| >= HEADER && ParseEntry(Encode(e) + rest) == Parsed(e.mode, e.name, e.data, |Encode(e)|)
  {
    hide ParseEntry;
    hide Header;
    hide HexValue;
    hide Hex;
    hide CString;
    EntryFacts(e);
    hide EntryOk;
    EntrySlices(e, rest);
    var r, h, size := Encode(e) + rest, Header(e), |Encode(e)|;
    hide Encode;
    var more :| r[HEADER..] == e.name + [NUL] + more;
    CStringOf(e.name, more);
    HeaderFields(e);
    Prefix(r, h);
    Number(e.mode, e.lower);
    Number(|e.data|, e.lower);
    Number(|e.name| + 1, e.lower);
    PartsParsed(r, e.mode, e.name, e.data);
  }

  /** One entry of a scan. */
  lemma ScanEntry(e: Entry, rest: seq<char>)
    requires EntryOk(e)
    ensures ScanAll(Encode(e) + rest) ==
      if e.name == TRAILER then Scan(true, [])
      else Scan(ScanAll(rest).ok, Asked(e.name, e.mode, e.data) + ScanAll(rest).actions)
  {
    EntryRoundTrip(e, rest);
    hide Encode;
    hide ParseEntry;
    hide Asked;
    assert (Encode(e) + rest)[|Encode(e)|..] == rest;
  }

  /** Round trip: unpacking the archive of any entries, whatever follows the trailer, asks for exactly those
      entries, in order, with the same paths, modes and data. */
  lemma {:induction false} ArchiveRoundTrip(es: seq<Entry>, last: Entry, tail: seq<char>)
    requires forall i | 0 <= i < |es| :: EntryOk(es[i]) && es[i].name != TRAILER
    requires EntryOk(last) && last.name == TRAILER
    ensures ScanAll(Archive(es, last) + tail) == Scan(true, AllAsked(es))
  {
    hide Asked;
    hide EntryOk;
    hide ScanAll;
    hide Encode;
    if es == [] {
      ScanEntry(last, tail);
    } else {
      var rest := Archive(es[1..], last) + tail;
      assert Archive(es, last) + tail == Encode(es[0]) + rest;
      ScanEntry(es[0], rest);
      ArchiveRoundTrip(es[1..], last, tail);
    }
  }

  function Body(es: seq<Entry>): seq<char> {
    if es == [] then [] else Encode(es[0]) + Body(es[1..])
  }

  /** After whole entries the decoder goes on with what follows them. */
  lemma {:induction false} BodyThen(es: seq<Entry>, r: seq<char>)
    requires forall i | 0 <= i < |es| :: EntryOk(es[i]) && es[i].name != TRAILER
    ensures ScanAll(Body(es) + r) == Scan(ScanAll(r).ok, AllAsked(es) + ScanAll(r).actions)
  {
    hide Asked;
    hide EntryOk;
    hide ScanAll;
    hide Encode;
    if es == [] {
      assert Body(es) + r == r;
    } else {
      var rest := Body(es[1..]) + r;
      assert Body(es) + r == Encode(es[0]) + rest;
      ScanEntry(es[0], rest);
      BodyThen(es[1..], r);
    }
  }

  /** What makes an entry unreadable: another magic number, a field that is no number, a name of no length, or a name
      or data that reach beyond the end. */
  ghost predicate Unreadable(r: seq<char>)
    requires |r| >= 110
  {
    || r[..6] != "070701"
    || !AllDigits(r[14..22]) || !AllDigits(r[54..62]) || !AllDigits(r[94..102])
    || Writes(r[94..102], 0)
    || Overruns(r[94..102], r[54..62], |r|)
  }

  /** Name or data reach beyond the end. */
  ghost predicate Overruns(nameSize: seq<char>, fileSize: seq<char>, length: nat) {
    exists n: nat, d: nat :: Writes(nameSize, n) && Writes(fileSize, d) && (110 + n > length || Align4(110 + n) + d > length)
  }

  lemma OverrunMeans(nameSize: seq<char>, fileSize: seq<char>, length: nat)
    requires |nameSize| == |fileSize| == 8 && HexValue(nameSize).Some? && HexValue(fileSize).Some?
    ensures var n, d := HexValue(nameSize).value, HexValue(fileSize).value;
      Overruns(nameSize, fileSize, length) <==> 110 + n > length || Align4(110 + n) + d > length
  {
    FieldMeans(nameSize);
    FieldMeans(fileSize);
    hide HexValue;
    hide Writes;
    hide Align4;
    assert Writes(nameSize, HexValue(nameSize).value) && Writes(fileSize, HexValue(fileSize).value);
  }

  /** The decoder stops at the first unreadable entry and fails, having asked for those before it. */
  lemma StopsAtUnreadable(es: seq<Entry>, r: seq<char>)
    requires forall i | 0 <= i < |es| :: EntryOk(es[i]) && es[i].name != TRAILER
    requires |r| >= 110 && Unreadable(r)
    ensures ScanAll(Body(es) + r) == Scan(false, AllAsked(es))
  {
    BodyThen(es, r);
    UnreadableIsBroken(r);
    hide ParseEntry;
    assert AllAsked(es) + [] == AllAsked(es);
  }

  /** Without a trailer the archive ends where there is no room for a header, and that is no failure. */
  lemma EndsWithoutTrailer(es: seq<Entry>, r: seq<char>)
    requires forall i | 0 <= i < |es| :: EntryOk(es[i]) && es[i].name != TRAILER
    requires |r| < 110
    ensures ScanAll(Body(es) + r) == Scan(true, AllAsked(es))
  {
    BodyThen(es, r);
    assert AllAsked(es) + [] == AllAsked(es);
  }

  lemma BrokenParts(r: seq<char>)
    requires |r| >= 110
    ensures var m, f, n := HexValue(r[14..22]), HexValue(r[54..62]), HexValue(r[94..102]);
      ParseEntry(r).Broken? <==>
        || r[..6] != MAGIC || m.None? || f.None? || n.None? || n.value == 0
        || 110 + n.value > |r| || Align4(110 + n.value) + f.value > |r|
  {
    hide HexValue;
    hide Align4;
    hide CString;
  }

  lemma UnreadableIsBroken(r: seq<char>)
    requires |r| >= 110
    ensures ParseEntry(r).Broken? <==> Unreadable(r)
  {
    hide HexValue;
    hide AllDigits;
    hide Writes;
    hide Align4;
    hide Overruns;
    hide ParseEntry;
    var m, f, n := r[14..22], r[54..62], r[94..102];
    BrokenParts(r);
    FieldMeans(m);
    FieldMeans(f);
    FieldMeans(n);
    assert HexValue(n) == Some(0) <==> Writes(n, 0);
    if HexValue(f).Some? && HexValue(n).Some? {
      OverrunMeans(n, f, |r|);
    }
  }

  // ---- what is made ----

  /** `n` times "./" */
  function Dots(n: nat): seq<char> {
    if n == 0 then "" else "./" + Dots(n - 1)
  }

  /** The path of a name: what is left behind its "./" prefixes, behind a "/"; none for ".". */
  lemma {:induction false} NormalMeans(n: nat, base: seq<char>)
    requires base == "." || |base| < 2 || base[..2] != "./"
    ensures Normal(Dots(n) + base) == if base == "." then "" else "/" + base
  {
    if n > 0 {
      assert (Dots(n) + base)[2..] == Dots(n - 1) + base;
      NormalMeans(n - 1, base);
    } else {
      assert Dots(n) + base == base;
      assert |base| >= 2 ==> base[..2] == [base[0], base[1]];
    }
  }

  /** What an entry makes, under the first 4095 characters of its path: its type is the highest nibble of the mode's low sixteen bits, 4 for a directory and
      8 for a regular file; nothing is made for "." and other kinds. */
  lemma AskedMeans(n: nat, base: seq<char>, mode: nat, data: seq<char>)
    requires base == "." || |base| < 2 || base[..2] != "./"
    ensures var path := if |base| < 4095 then "/" + base else ("/" + base)[..4095];
      Asked(Dots(n) + base, mode, data) ==
        if base == "." then []
        else if 0x4000 <= mode % 0x1_0000 < 0x5000 then [MakeDir(path, mode)]
        else if 0x8000 <= mode % 0x1_0000 < 0x9000 then [MakeFile(path, mode, data)]
        else []
  {
    NormalMeans(n, base);
    Nibble(mode);
  }

  lemma Nibble(mode: nat)
    ensures mode / 0x1000 % 16 == mode % 0x1_0000 / 0x1000
  {
    var q, r := mode / 0x1_0000, mode % 0x1_0000;
    assert mode == q * 0x1_0000 + r;
    assert mode / 0x1000 == q * 16 + r / 0x1000;
  }

  /** Files and directories, named relative to the root. */
  predicate Made(e: Entry, n: nat, base: seq<char>, a: Action) {
    && e.name == Dots(n) + base && base != "." && (|base| < 2 || base[..2] != "./") && |base| + 1 < 4096
    && ((0x4000 <= e.mode % 0x1_0000 < 0x5000 && a == MakeDir("/" + base, e.mode))
        || (0x8000 <= e.mode % 0x1_0000 < 0x9000 && a == MakeFile("/" + base, e.mode, e.data)))
  }

  /** Unpacking an archive of files and directories makes each of them, in order, under its own name and with its
      own mode and data. */
  lemma {:induction false} ArchiveMakes(es: seq<Entry>, ns: seq<nat>, bases: seq<seq<char>>, made: seq<Action>)
    requires |made| == |es| == |ns| == |bases|
    requires forall i | 0 <= i < |es| :: Made(es[i], ns[i], bases[i], made[i])
    ensures AllAsked(es) == made
  {
    if es != [] {
      assert Made(es[0], ns[0], bases[0], made[0]);
      AskedMeans(ns[0], bases[0], es[0].mode, es[0].data);
      hide Asked;
      hide Made;
      ArchiveMakes(es[1..], ns[1..], bases[1..], made[1..]);
      assert made == [made[0]] + made[1..];
    }
  }

  /** A path that fits is the normal form of the name itself. */
  lemma FittingPath(name: seq<char>)
    requires |Normal(name)| < PATH_MAX
    ensures Fitted(Normal(name)) == Normal(name)
    ensures Normal(name) == "" || Normal(name)[0] == '/'
  {
    NormalIsAbsolute(name);
  }

  lemma {:induction false} NormalIsAbsolute(name: seq<char>)
    ensures Normal(name) == "" || Normal(name)[0] == '/'
  {
    if name != "." && |name| >= 2 && name[0] == '.' && name[1] == '/' {
      NormalIsAbsolute(name[2..]);
    }
  }
}
