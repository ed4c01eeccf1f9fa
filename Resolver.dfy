/** Finding the interpreter's symbol addresses in the target
    (src/python_frame.cpp): the `/proc/<pid>/maps` scan of
    `locate_lib_python`, and the decision procedure of `Addrs`,
    `AddressesFromLibPython`, `set_addrs_` and `detect_python_abi`.

    What the target looks like from outside is one `ProcView`: the target
    of its `exe` link, the lines of its maps file, what the ELF reader makes
    of each file it can open, and the word the injected call to
    `PyInterpreterState_Head` would return. */
module Resolver {
  import opened Wrappers
  import opened Remote
  import opened Addresses

  // ---------------------------------------------------------------------------
  // `std::string::find`

  /** `pat` occurs in `s` at `i`. */
  predicate IsAt(s: string, pat: string, i: nat)
  {
    i + |pat| <= |s| && s[i..i + |pat|] == pat
  }

  function FindFrom(s: string, pat: string, i: nat): (r: Option<nat>)
    requires i <= |s|
    ensures r.Some? ==> i <= r.value && IsAt(s, pat, r.value)
    ensures r.Some? ==> forall j :: i <= j < r.value ==> !IsAt(s, pat, j)
    ensures r.None? ==> forall j :: i <= j ==> !IsAt(s, pat, j)
    decreases |s| - i
  {
    if IsAt(s, pat, i) then Some(i)
    else if i == |s| then None
    else FindFrom(s, pat, i + 1)
  }

  /** `s.find(pat)`: the first position of `pat` in `s`, `npos` as `None`. */
  function Find(s: string, pat: string): Option<nat>
  {
    FindFrom(s, pat, 0)
  }

  function Contains(s: string, pat: string): bool
  {
    Find(s, pat).Some?
  }

  lemma FindNone(s: string, pat: string)
    ensures Find(s, pat).None? <==> forall j :: 0 <= j ==> !IsAt(s, pat, j)
  {
  }

  /** A one-character pattern occurs exactly where that character is. */
  lemma IsAtChar(s: string, c: char)
    ensures forall i: nat :: IsAt(s, [c], i) <==> i < |s| && s[i] == c
  {
    forall i: nat | i < |s| && s[i] == c
      ensures IsAt(s, [c], i)
    {
      assert s[i..i + 1] == [c];
    }
  }

  /** `find` of a character gives its first occurrence. */
  lemma FindCharAt(s: string, c: char, k: nat)
    requires k < |s| && s[k] == c
    requires forall j :: 0 <= j < k ==> s[j] != c
    ensures Find(s, [c]) == Some(k)
  {
    IsAtChar(s, c);
  }

  // ---------------------------------------------------------------------------
  // `strtoul(text, nullptr, 16)`

  predicate IsHexDigit(c: char)
  {
    '0' <= c <= '9' || 'a' <= c <= 'f' || 'A' <= c <= 'F'
  }

  function HexDigitValue(c: char): (d: nat)
    requires IsHexDigit(c)
    ensures d < 16
  {
    if '0' <= c <= '9' then c as int - '0' as int
    else if 'a' <= c <= 'f' then c as int - 'a' as int + 10
    else c as int - 'A' as int + 10
  }

  /** `isspace` in the C locale. */
  predicate IsSpace(c: char)
  {
    c == ' ' || 9 <= c as int <= 13
  }

  function SkipSpace(s: string): (t: string)
    ensures t <= s || (|t| <= |s| && t == s[|s| - |t|..])
    ensures t == [] || !IsSpace(t[0])
  {
    if s != [] && IsSpace(s[0]) then SkipSpace(s[1..]) else s
  }

  /** The value of the hex digits that lead `s`, accumulated onto `acc`. */
  function HexRun(s: string, acc: nat): nat
  {
    if s == [] || !IsHexDigit(s[0]) then acc
    else HexRun(s[1..], acc * 16 + HexDigitValue(s[0]))
  }

  /** `strtoul` in base 16: leading white space, an optional sign, an
      optional `0x`/`0X` when a hex digit follows it, then hex digits. A
      value above `ULONG_MAX` gives `ULONG_MAX`; a minus sign negates modulo
      2^64. */
  function StrToUL16(s: string): Word
  {
    var t := SkipSpace(s);
    var neg := t != [] && t[0] == '-';
    var u := if t != [] && (t[0] == '-' || t[0] == '+') then t[1..] else t;
    var digits := if |u| >= 3 && u[0] == '0' && (u[1] == 'x' || u[1] == 'X') && IsHexDigit(u[2]) then u[2..] else u;
    var v := HexRun(digits, 0);
    if v > ALL_ONES then ALL_ONES
    else if neg then (ADDRESS_SPACE - v) % ADDRESS_SPACE
    else v
  }

  /** Lower-case hex digits of `v`, as the kernel prints addresses in the
      maps file. */
  function Hex(v: nat): (s: string)
    ensures |s| > 0 && forall i :: 0 <= i < |s| ==> IsHexDigit(s[i]) && s[i] != 'x' && s[i] != 'X'
  {
    if v < 16 then [HexChar(v)] else Hex(v / 16) + [HexChar(v % 16)]
  }

  function HexChar(d: nat): (c: char)
    requires d < 16
    ensures IsHexDigit(c) && HexDigitValue(c) == d
  {
    "0123456789abcdef"[d]
  }

  lemma {:induction false} HexRunAppend(a: string, b: string, acc: nat)
    requires forall i :: 0 <= i < |a| ==> IsHexDigit(a[i])
    ensures HexRun(a + b, acc) == HexRun(b, HexRun(a, acc))
    decreases |a|
  {
    if a != [] {
      assert IsHexDigit(a[0]) && (a + b)[0] == a[0];
      assert (a + b)[1..] == a[1..] + b;
      assert HexRun(a, acc) == HexRun(a[1..], acc * 16 + HexDigitValue(a[0]));
      HexRunAppend(a[1..], b, acc * 16 + HexDigitValue(a[0]));
    } else {
      assert a + b == b;
    }
  }

  lemma {:induction false} HexRunOfHex(v: nat)
    ensures HexRun(Hex(v), 0) == v
    decreases v
  {
    if v >= 16 {
      HexRunOfHex(v / 16);
      HexRunAppend(Hex(v / 16), [HexChar(v % 16)], 0);
      assert HexRun([HexChar(v % 16)], v / 16) == (v / 16) * 16 + v % 16;
    }
  }

  /** A field that ends where the number ends. */
  predicate EndsNumber(tail: string)
  {
    tail == [] || (!IsHexDigit(tail[0]) && tail[0] != 'x' && tail[0] != 'X')
  }

  /** Parsing the printed form of an address gives the address back. */
  lemma StrToUL16OfHex(v: Word, tail: string)
    requires EndsNumber(tail)
    ensures StrToUL16(Hex(v) + tail) == v
  {
    HexRunOfHex(v);
    StrToUL16OfDigits(Hex(v), tail);
  }

  /** A run of hex digits ended by `tail` reads as its value, when that
      value fits. */
  lemma StrToUL16OfDigits(h: string, tail: string)
    requires |h| > 0 && forall i :: 0 <= i < |h| ==> IsHexDigit(h[i])
    requires EndsNumber(tail) && HexRun(h, 0) <= ALL_ONES
    ensures StrToUL16(h + tail) == HexRun(h, 0)
  {
    var s := h + tail;
    assert s[0] == h[0];
    assert SkipSpace(s) == s;
    HexRunAppend(h, tail, 0);
    assert |s| >= 2 ==> s[1] != 'x' && s[1] != 'X' by {
      if |s| >= 2 {
        if |h| == 1 {
          assert s[1] == tail[0];
        } else {
          assert s[1] == h[1];
        }
      }
    }
    assert HexRun(tail, HexRun(h, 0)) == HexRun(h, 0);
  }

  // ---------------------------------------------------------------------------
  // locate_lib_python

  /** Where an image is loaded, and its file name from the maps line. */
  datatype Located = Located(base: Word, path: string)

  /** A maps line that `locate_lib_python` takes: it mentions `hint` and is
      an executable, private, read-only mapping. */
  predicate Matches(line: string, hint: string)
  {
    Contains(line, hint) && Contains(line, " r-xp ")
  }

  /** The matched line: the path from its first `/`, then the start address
      before its first `-`. Either missing raises FatalException, the `/`
      check first. */
  function ParseLine(line: string): (r: Result<Located>)
    ensures r.Err? <==> !Contains(line, "/") || !Contains(line, "-")
    ensures r.Err? ==> r.error == Fatal
    ensures r.Ok? ==> 0 < |r.value.path| <= |line| && r.value.path == line[|line| - |r.value.path|..]
    ensures r.Ok? ==> r.value.path[0] == '/' && forall j :: 0 <= j < |line| - |r.value.path| ==> line[j] != '/'
  {
    match Find(line, "/")
    case None => Err(Fatal)
    case Some(slash) =>
      match Find(line, "-")
      case None => Err(Fatal)
      case Some(dash) =>
        IsAtChar(line, '/');
        Ok(Located(StrToUL16(line[..dash]), line[slash..]))
  }

  /** `locate_lib_python`: the first matching line decides; with none the
      load address is 0 and `path` is left as it was. */
  function LocateSpec(maps: seq<string>, hint: string, path: string): (r: Result<Located>)
    ensures r.Err? ==> r.error == Fatal
  {
    if maps == [] then Ok(Located(0, path))
    else if Matches(maps[0], hint) then ParseLine(maps[0])
    else LocateSpec(maps[1..], hint, path)
  }

  /** The first matching line, and only it, decides the outcome. */
  lemma {:induction false} LocateFirstMatch(maps: seq<string>, hint: string, path: string, i: nat)
    requires i < |maps| && Matches(maps[i], hint)
    requires forall j :: 0 <= j < i ==> !Matches(maps[j], hint)
    ensures LocateSpec(maps, hint, path) == ParseLine(maps[i])
    decreases i
  {
    if i > 0 {
      LocateFirstMatch(maps[1..], hint, path, i - 1);
    }
  }

  /** No matching line: load address 0, `path` untouched. */
  lemma {:induction false} LocateNoMatch(maps: seq<string>, hint: string, path: string)
    requires forall j :: 0 <= j < |maps| ==> !Matches(maps[j], hint)
    ensures LocateSpec(maps, hint, path) == Ok(Located(0, path))
    decreases |maps|
  {
    if maps != [] {
      LocateNoMatch(maps[1..], hint, path);
    }
  }

  /** `locate_lib_python`: the `getline` loop over the maps lines. */
  method LocateLibPython(maps: seq<string>, hint: string, path: string) returns (r: Result<Located>)
    ensures r == LocateSpec(maps, hint, path)
  {
    var i := 0;
    while i < |maps|
      invariant i <= |maps|
      invariant LocateSpec(maps[i..], hint, path) == LocateSpec(maps, hint, path)
    {
      assert maps[i..][1..] == maps[i + 1..];
      var line := maps[i];
      if Contains(line, hint) && Contains(line, " r-xp ") {
        var slash := Find(line, "/");
        if slash.None? {
          return Err(Fatal);
        }
        var dash := Find(line, "-");
        if dash.None? {
          return Err(Fatal);
        }
        return Ok(Located(StrToUL16(line[..dash.value]), line[slash.value..]));
      }
      i := i + 1;
    }
    assert maps[i..] == [];
    return Ok(Located(0, path));
  }

  /** On a line in the kernel's format, `start-end perms ... /path`, the
      result is the start address and the path. */
  lemma ParseMapsLine(start: Word, rest: string, slash: nat)
    requires slash < |rest| && rest[slash] == '/' && forall j :: 0 <= j < slash ==> rest[j] != '/'
    ensures var line := Hex(start) + "-" + rest;
      ParseLine(line) == Ok(Located(start, rest[slash..]))
  {
    var h := Hex(start);
    StrToUL16OfHexAlone(start);
    FieldsOfLine(h, rest, slash);
  }

  /** Parsing exactly the printed form of an address gives it back. */
  lemma StrToUL16OfHexAlone(v: Word)
    ensures StrToUL16(Hex(v)) == v
  {
    StrToUL16OfHex(v, []);
    assert Hex(v) + [] == Hex(v);
  }

  /** `ParseLine` on a line made of the hex digits `h`, a `-`, then
      `rest` whose first `/` is at `slash`. */
  lemma FieldsOfLine(h: string, rest: string, slash: nat)
    requires forall j :: 0 <= j < |h| ==> IsHexDigit(h[j])
    requires slash < |rest| && rest[slash] == '/' && forall j :: 0 <= j < slash ==> rest[j] != '/'
    ensures ParseLine(h + "-" + rest) == Ok(Located(StrToUL16(h), rest[slash..]))
  {
    var line := h + "-" + rest;
    var at := |h| + 1 + slash;
    DashField(h, rest);
    SlashField(h, rest, slash);
    ParseLineAt(line, at, |h|);
  }

  /** What `ParseLine` takes from a line once both `find`s have landed. */
  lemma ParseLineAt(line: string, slash: nat, dash: nat)
    ensures Find(line, "/") == Some(slash) && Find(line, "-") == Some(dash) ==>
      ParseLine(line) == Ok(Located(StrToUL16(line[..dash]), line[slash..]))
  {
  }

  /** The first `-` of such a line ends the start address. */
  lemma DashField(h: string, rest: string)
    requires forall j :: 0 <= j < |h| ==> IsHexDigit(h[j])
    ensures Find(h + "-" + rest, "-") == Some(|h|) && (h + "-" + rest)[..|h|] == h
  {
    var line := h + "-" + rest;
    assert line[..|h|] == h;
    forall j | 0 <= j < |h|
      ensures line[j] != '-'
    {
      assert line[j] == h[j];
    }
    FindCharAt(line, '-', |h|);
  }

  /** The first `/` of such a line begins the path. */
  lemma SlashField(h: string, rest: string, slash: nat)
    requires forall j :: 0 <= j < |h| ==> IsHexDigit(h[j])
    requires slash < |rest| && rest[slash] == '/' && forall j :: 0 <= j < slash ==> rest[j] != '/'
    ensures var line := h + "-" + rest;
      Find(line, "/") == Some(|h| + 1 + slash) && line[|h| + 1 + slash..] == rest[slash..]
  {
    var line := h + "-" + rest;
    var at := |h| + 1 + slash;
    forall j | 0 <= j < at
      ensures line[j] != '/'
    {
      if j < |h| {
        assert line[j] == h[j];
      } else if j > |h| {
        assert line[j] == rest[j - |h| - 1];
      }
    }
    assert line[at] == rest[slash];
    FindCharAt(line, '/', at);
    assert line[at..] == rest[slash..];
  }

  // ---------------------------------------------------------------------------
  // The target as seen from outside

  /** What `ELF::Open` + `Parse` make of one file: the addresses
      `GetAddresses` returns, the ABI it reports through its out-pointer
      (`None`: it leaves it alone), and the `DT_NEEDED` names. */
  datatype ElfInfo = ElfInfo(addrs: PyAddresses, abi: Option<PyABI>, needed: seq<string>)

  datatype ProcView = ProcView(
    exe: Option<string>,
    maps: seq<string>,
    images: map<string, ElfInfo>,
    injected: Word,
    mem: Memory)

  /** An ELF file the reader cannot open or parse raises FatalException. */
  function OpenElf(view: ProcView, path: string): Result<ElfInfo>
  {
    if path in view.images then Ok(view.images[path]) else Err(Fatal)
  }

  /** The addresses found, and the ABI out-slot afterwards (`None` is a null
      `PyABI*`). */
  datatype Found = Found(addrs: PyAddresses, slot: Option<PyABI>)

  /** `ELF::GetAddresses(abi)`. */
  function GetAddresses(info: ElfInfo, slot: Option<PyABI>): Found
  {
    Found(info.addrs, if slot.Some? && info.abi.Some? then info.abi else slot)
  }

  /** The first `DT_NEEDED` entry whose name contains "libpython". */
  function FirstLibPython(libs: seq<string>): (r: Option<string>)
    ensures r.Some? ==> r.value in libs && Contains(r.value, "libpython")
    ensures r.Some? ==>
      exists k :: 0 <= k < |libs| && libs[k] == r.value && forall j :: 0 <= j < k ==> !Contains(libs[j], "libpython")
    ensures r.None? ==> forall l :: l in libs ==> !Contains(l, "libpython")
  {
    if libs == [] then None
    else if Contains(libs[0], "libpython") then Some(libs[0])
    else FirstLibPython(libs[1..])
  }

  /** The `for` loop of `Addrs` over `NeededLibs()`; the empty string when
      no entry names libpython. */
  method FindLibPython(libs: seq<string>) returns (lib: string)
    ensures lib == (if FirstLibPython(libs).Some? then FirstLibPython(libs).value else "")
  {
    lib := "";
    var i := 0;
    while i < |libs|
      invariant i <= |libs|
      invariant FirstLibPython(libs[i..]) == FirstLibPython(libs)
    {
      assert libs[i..][1..] == libs[i + 1..];
      if Contains(libs[i], "libpython") {
        lib := libs[i];
        break;
      }
      i := i + 1;
    }
  }

  /** The soname `Addrs` falls back on. */
  const FALLBACK_LIBPYTHON: string := "libpython2.7.so"

  /** `AddressesFromLibPython`: find the library's load address in the
      maps, read its symbols, relocate them. A zero load address or empty
      addresses raise SymbolException. */
  function FromLibPython(view: ProcView, lib: string, slot: Option<PyABI>): (r: Result<Found>)
    ensures r.Err? ==> r.error.IsFatal()
  {
    var loc :- LocateSpec(view.maps, lib, "");
    if loc.base == 0 then Err(Symbol)
    else
      var info :- OpenElf(view, loc.path);
      var f := GetAddresses(info, slot);
      if f.addrs.Empty() then Err(Symbol) else Ok(f.(addrs := f.addrs.Shift(loc.base)))
  }

  /** What `AddressesFromLibPython` returns: the library's own addresses
      relocated by a non-zero load address found in the maps; it raises
      SymbolException exactly when that address is 0 or those addresses
      are empty. */
  lemma FromLibPythonMeaning(view: ProcView, lib: string, slot: Option<PyABI>)
    requires LocateSpec(view.maps, lib, "").Ok?
    requires LocateSpec(view.maps, lib, "").value.base != 0 ==> LocateSpec(view.maps, lib, "").value.path in view.images
    ensures var loc := LocateSpec(view.maps, lib, "").value;
      FromLibPython(view, lib, slot) == Err(Symbol) <==>
        loc.base == 0 || view.images[loc.path].addrs.Empty()
    ensures var loc := LocateSpec(view.maps, lib, "").value;
      FromLibPython(view, lib, slot).Ok? ==>
        FromLibPython(view, lib, slot).value.addrs == view.images[loc.path].addrs.Shift(loc.base)
  {
  }

  /** `Addrs`: the executable's own addresses when it has them (relocated by
      its own load address when it is position-independent), else those of
      the first needed libpython, else those of `libpython2.7.so`. A
      missing `exe` link raises FatalException. */
  function AddrsSpec(view: ProcView, slot: Option<PyABI>): (r: Result<Found>)
    ensures r.Err? ==> r.error.IsFatal()
  {
    var exe :- if view.exe.Some? then Ok(view.exe.value) else Err(Fatal);
    var target :- OpenElf(view, exe);
    var f := GetAddresses(target, slot);
    if f.addrs.IsSet() then
      if f.addrs.pie then
        var loc :- LocateSpec(view.maps, exe, "");
        Ok(f.(addrs := f.addrs.Shift(loc.base)))
      else Ok(f)
    else
      match FirstLibPython(target.needed)
      case Some(lib) => FromLibPython(view, lib, f.slot)
      case None => FromLibPython(view, FALLBACK_LIBPYTHON, f.slot)
  }

  /** The three sources `Addrs` tries, in order. */
  lemma AddrsOrder(view: ProcView, slot: Option<PyABI>, exe: string)
    requires view.exe == Some(exe) && exe in view.images
    ensures var t := view.images[exe];
      t.addrs.IsSet() && !t.addrs.pie ==> AddrsSpec(view, slot) == Ok(GetAddresses(t, slot))
    ensures var t := view.images[exe];
      t.addrs.IsSet() && t.addrs.pie && LocateSpec(view.maps, exe, "").Ok? ==>
        AddrsSpec(view, slot).Ok? &&
        AddrsSpec(view, slot).value.addrs == t.addrs.Shift(LocateSpec(view.maps, exe, "").value.base)
    ensures var t := view.images[exe];
      t.addrs.Empty() && FirstLibPython(t.needed).Some? ==>
        AddrsSpec(view, slot) == FromLibPython(view, FirstLibPython(t.needed).value, GetAddresses(t, slot).slot)
    ensures var t := view.images[exe];
      t.addrs.Empty() && FirstLibPython(t.needed).None? ==>
        AddrsSpec(view, slot) == FromLibPython(view, FALLBACK_LIBPYTHON, GetAddresses(t, slot).slot)
  {
  }

  /** `Addrs` hands back an empty record only when relocation wrapped a
      filled-in thread-state address to 0. */
  lemma AddrsEmptyOnlyByWrap(view: ProcView, slot: Option<PyABI>)
    requires AddrsSpec(view, slot).Ok? && AddrsSpec(view, slot).value.addrs.Empty()
    ensures exists a: PyAddresses, base: Word :: a.IsSet() && a.Shift(base) == AddrsSpec(view, slot).value.addrs
  {
    var exe := view.exe.value;
    var t := view.images[exe];
    var r := AddrsSpec(view, slot).value.addrs;
    if t.addrs.IsSet() {
      var loc := LocateSpec(view.maps, exe, "").value;
      assert t.addrs.IsSet() && t.addrs.Shift(loc.base) == r;
    } else {
      var lib := if FirstLibPython(t.needed).Some? then FirstLibPython(t.needed).value else FALLBACK_LIBPYTHON;
      var loc := LocateSpec(view.maps, lib, "").value;
      var info := view.images[loc.path];
      assert info.addrs.IsSet() && info.addrs.Shift(loc.base) == r;
    }
  }

  // ---------------------------------------------------------------------------
  // set_addrs_ and detect_python_abi

  /** `set_addrs_`: the return code, the caller's address record after the
      call, and the ABI slot. */
  datatype SetOutcome = SetOutcome(rc: int, addrs: PyAddresses, slot: Option<PyABI>)

  /** Whether `set_addrs_` asks the target for the interpreter head. */
  predicate NeedsInjectedHint(a: PyAddresses)
  {
    a.interpHeadAddr == 0 && a.interpHeadHint == 0 && a.interpHeadFnAddr != 0
  }

  /** `set_addrs_`: SymbolException becomes return code 1 and leaves the
      caller's record as it was; other exceptions propagate; on success the
      hint is filled from the injected call when it is needed. */
  function SetAddrs(view: ProcView, slot: Option<PyABI>, prev: PyAddresses): (r: Result<SetOutcome>)
    ensures r.Ok? ==> r.value.rc == 0 || r.value.rc == 1
    ensures r.Err? ==> r.error == Fatal
  {
    match AddrsSpec(view, slot)
    case Err(e) => if e == Symbol then Ok(SetOutcome(1, prev, slot)) else Err(e)
    case Ok(f) =>
      var a := f.addrs;
      Ok(SetOutcome(0, if NeedsInjectedHint(a) then a.(interpHeadHint := view.injected) else a, f.slot))
  }

  /** Return code 1 exactly on SymbolException, with the record untouched;
      otherwise the record is what `Addrs` found, with the hint replaced by
      the injected call's word exactly when interp_head_addr and the hint
      are both 0 and the function address is not. */
  lemma SetAddrsMeaning(view: ProcView, slot: Option<PyABI>, prev: PyAddresses)
    ensures SetAddrs(view, slot, prev).Ok? && SetAddrs(view, slot, prev).value.rc == 1 <==>
      AddrsSpec(view, slot) == Err(Symbol)
    ensures SetAddrs(view, slot, prev).Ok? && SetAddrs(view, slot, prev).value.rc == 1 ==>
      SetAddrs(view, slot, prev).value.addrs == prev
    ensures SetAddrs(view, slot, prev).Err? <==> AddrsSpec(view, slot).Err? && AddrsSpec(view, slot).error != Symbol
    ensures AddrsSpec(view, slot).Ok? ==>
      var a := AddrsSpec(view, slot).value.addrs;
      var s := SetAddrs(view, slot, prev).value.addrs;
      && SetAddrs(view, slot, prev).value.rc == 0
      && s.(interpHeadHint := a.interpHeadHint) == a
      && (s.interpHeadHint == view.injected || s.interpHeadHint == a.interpHeadHint)
      && (NeedsInjectedHint(a) ==> s.interpHeadHint == view.injected)
      && (!NeedsInjectedHint(a) ==> s.interpHeadHint == a.interpHeadHint)
  {
  }

  /** `detect_python_abi`'s return code and the caller's record after it. */
  datatype Detection = Detection(rc: int, addrs: PyAddresses)

  /** `detect_python_abi`: an unknown ABI is detected through the
      out-slot, a known one is taken as given; anything but the 2.6/2.7 ABI
      and an empty record raise FatalException. */
  function DetectAbi(view: ProcView, abi: PyABI, prev: PyAddresses): (r: Result<Detection>)
    ensures r.Err? ==> r.error == Fatal
    ensures r.Ok? ==> (r.value.rc == 0 && r.value.addrs.IsSet()) || (r.value.rc == 1 && r.value.addrs == prev)
  {
    var slot := if abi == Unknown then Some(abi) else None;
    var s :- SetAddrs(view, slot, prev);
    if s.rc != 0 then Ok(Detection(1, s.addrs))
    else
      var effective := if s.slot.Some? then s.slot.value else abi;
      if effective != Py26 then Err(Fatal)
      else if s.addrs.Empty() then Err(Fatal)
      else Ok(Detection(0, s.addrs))
  }

  /** A successful detection leaves a filled-in record and the 2.6/2.7 ABI:
      either it was given, or it was unknown and `GetAddresses` reported it.
      An explicitly given other ABI never succeeds. Return code 1 means
      SymbolException and an untouched record. */
  lemma DetectAbiMeaning(view: ProcView, abi: PyABI, prev: PyAddresses)
    ensures var d := DetectAbi(view, abi, prev);
      d.Ok? && d.value.rc == 0 ==>
        && d.value.addrs.IsSet()
        && (abi == Py26 || (abi == Unknown && SetAddrs(view, Some(Unknown), prev).value.slot == Some(Py26)))
    ensures abi == Py34 || abi == Py36 ==>
      !(DetectAbi(view, abi, prev).Ok? && DetectAbi(view, abi, prev).value.rc == 0)
    ensures var d := DetectAbi(view, abi, prev);
      d.Ok? ==> (d.value.rc == 0 || d.value.rc == 1)
    ensures var d := DetectAbi(view, abi, prev);
      d.Ok? && d.value.rc == 1 ==> d.value.addrs == prev
    ensures var d := DetectAbi(view, abi, prev);
      d.Ok? && d.value.rc == 1 <==> AddrsSpec(view, if abi == Unknown then Some(abi) else None) == Err(Symbol)
  {
    SetAddrsMeaning(view, if abi == Unknown then Some(abi) else None, prev);
  }
}
