/** `server.properties` handling: the key=value line parser shared by
    dyn_mc.py:9-18 and dynmc.py:144-153, the rcon check of dyn_mc.py:20-26,
    and the startup checks of dynmc.py:155-176. */
module Properties {
  import opened Results

  /** Which whitespace is meant: `str.isspace()`, what `str.strip()` removes,
      or the narrower set `int()` skips around a number. `int()` turns the
      non-ASCII whitespace into a blank first but leaves the ASCII separators
      U+001C..U+001F alone, and those then make the literal invalid. */
  datatype Blanks = StrBlanks | IntBlanks

  predicate IsSpace(w: Blanks, c: char)
  {
    var x := c as int;
    || 0x09 <= x <= 0x0D || x == 0x20 || (w == StrBlanks && 0x1C <= x <= 0x1F)
    || x == 0x85 || x == 0xA0 || x == 0x1680
    || 0x2000 <= x <= 0x200A
    || x == 0x2028 || x == 0x2029 || x == 0x202F || x == 0x205F || x == 0x3000
  }

  predicate AllSpace(w: Blanks, s: string)
  {
    forall i :: 0 <= i < |s| ==> IsSpace(w, s[i])
  }

  function StripLeft(w: Blanks, s: string): (r: string)
    ensures |r| <= |s| && r == s[|s| - |r|..]
    ensures AllSpace(w, s[..|s| - |r|])
    ensures |r| == 0 || !IsSpace(w, r[0])
  {
    if |s| > 0 && IsSpace(w, s[0]) then
      var r := StripLeft(w, s[1..]);
      assert s[..|s| - |r|] == [s[0]] + s[1..][..|s| - 1 - |r|];
      r
    else s
  }

  function StripRight(w: Blanks, s: string): (r: string)
    ensures |r| <= |s| && r == s[..|r|]
    ensures AllSpace(w, s[|r|..])
    ensures |r| == 0 || !IsSpace(w, r[|r| - 1])
  {
    if |s| > 0 && IsSpace(w, s[|s| - 1]) then
      var r := StripRight(w, s[..|s| - 1]);
      assert s[|r|..] == s[..|s| - 1][|r|..] + [s[|s| - 1]];
      r
    else s
  }

  /** `str.strip()` (or `int()`'s own trimming): the slice of `s` that neither
      starts nor ends with whitespace, everything cut off at either end being
      whitespace (the contracts of `StripLeft` and `StripRight`). */
  function Strip(w: Blanks, s: string): (r: string)
    ensures |r| == 0 || (!IsSpace(w, r[0]) && !IsSpace(w, r[|r| - 1]))
  {
    StripRight(w, StripLeft(w, s))
  }

  /** A string that starts and ends with a non-space is its own strip. */
  lemma {:induction false} StripUnchanged(w: Blanks, s: string)
    requires |s| == 0 || (!IsSpace(w, s[0]) && !IsSpace(w, s[|s| - 1]))
    ensures Strip(w, s) == s
  {
  }

  lemma {:induction false} StripLeftSpaces(w: Blanks, p: string, rest: string)
    requires AllSpace(w, p) && |rest| > 0 && !IsSpace(w, rest[0])
    ensures StripLeft(w, p + rest) == rest
  {
    if |p| > 0 {
      assert (p + rest)[1..] == p[1..] + rest;
      StripLeftSpaces(w, p[1..], rest);
    } else {
      assert p + rest == rest;
    }
  }

  lemma {:induction false} StripRightSpaces(w: Blanks, rest: string, q: string)
    requires AllSpace(w, q) && |rest| > 0 && !IsSpace(w, rest[|rest| - 1])
    ensures StripRight(w, rest + q) == rest
  {
    if |q| > 0 {
      assert (rest + q)[..|rest + q| - 1] == rest + q[..|q| - 1];
      StripRightSpaces(w, rest, q[..|q| - 1]);
    } else {
      assert rest + q == rest;
    }
  }

  /** Whitespace around a text that starts and ends with a non-space is
      exactly what `strip()` removes. */
  lemma {:induction false} StripSurrounded(w: Blanks, p: string, core: string, q: string)
    requires AllSpace(w, p) && AllSpace(w, q)
    requires |core| > 0 && !IsSpace(w, core[0]) && !IsSpace(w, core[|core| - 1])
    ensures Strip(w, p + core + q) == core
  {
    assert p + core + q == p + (core + q);
    StripLeftSpaces(w, p, core + q);
    StripRightSpaces(w, core, q);
  }

  /** The first position of `c` in `s`. */
  function IndexOf(s: string, c: char): (i: nat)
    requires c in s
    ensures i < |s| && s[i] == c && c !in s[..i]
  {
    if s[0] == c then 0 else
      var i := IndexOf(s[1..], c);
      assert s[1..][..i] == s[1..i + 1];
      1 + i
  }

  /** How many times `c` occurs in `s`. */
  function Occurrences(s: string, c: char): (n: nat)
    ensures n == 0 <==> c !in s
  {
    if |s| == 0 then 0 else (if s[0] == c then 1 else 0) + Occurrences(s[1..], c)
  }

  lemma {:induction false} OccurrencesSplit(a: string, b: string, c: char)
    ensures Occurrences(a + b, c) == Occurrences(a, c) + Occurrences(b, c)
  {
    if |a| > 0 {
      assert (a + b)[1..] == a[1..] + b;
      OccurrencesSplit(a[1..], b, c);
    } else {
      assert a + b == b;
    }
  }

  /** The parts re-joined with the separator. */
  function Join(parts: seq<string>, sep: char): string
    requires |parts| >= 1
  {
    if |parts| == 1 then parts[0] else parts[0] + [sep] + Join(parts[1..], sep)
  }

  /** `s.split(sep)` for a one-character separator: one more part than there
      are separators, none of them containing it, and joining them back gives `s`. */
  function Split(s: string, sep: char): (parts: seq<string>)
    ensures |parts| == Occurrences(s, sep) + 1
    ensures forall i :: 0 <= i < |parts| ==> sep !in parts[i]
    ensures Join(parts, sep) == s
    decreases |s|
  {
    if sep !in s then
      [s]
    else
      var i := IndexOf(s, sep);
      var rest := Split(s[i + 1..], sep);
      assert s == s[..i] + [sep] + s[i + 1..];
      OccurrencesSplit(s[..i] + [sep], s[i + 1..], sep);
      OccurrencesSplit(s[..i], [sep], sep);
      var parts := [s[..i]] + rest;
      assert parts[1..] == rest;
      parts
  }

  /** Splitting a string with no separator in either half around one separator. */
  lemma {:induction false} SplitTwo(k: string, v: string, sep: char)
    requires sep !in k && sep !in v
    ensures Split(k + [sep] + v, sep) == [k, v]
  {
    var s := k + [sep] + v;
    assert s[|k|] == sep;
    var i := IndexOf(s, sep);
    assert i == |k|;
    assert s[..i] == k && s[i + 1..] == v;
  }

  /** One line's contribution (dyn_mc.py:15-18): the stripped line split on
      `=`, kept only when there are exactly two parts. */
  function ParseLine(line: string): Option<(string, string)>
  {
    var parts := Split(Strip(StrBlanks, line), '=');
    if |parts| == 2 then Some((parts[0], parts[1])) else None
  }

  /** A line is stored exactly when its stripped text is `key=value` with no
      other `=`; the key and value are the two sides, either may be empty. */
  lemma {:induction false} ParseLineSpec(line: string, key: string, value: string)
    ensures ParseLine(line) == Some((key, value))
            <==> Strip(StrBlanks, line) == key + "=" + value && '=' !in key && '=' !in value
  {
    var parts := Split(Strip(StrBlanks, line), '=');
    if '=' !in key && '=' !in value {
      SplitTwo(key, value, '=');
    }
    if |parts| == 2 {
      assert Join(parts[1..], '=') == parts[1];
    }
  }

  /** A line adds nothing exactly when its stripped text has no `=` or more than one. */
  lemma {:induction false} ParseLineNone(line: string)
    ensures ParseLine(line).None? <==> Occurrences(Strip(StrBlanks, line), '=') != 1
  {
  }

  /** `key=` stores the empty string. */
  lemma {:induction false} ParseLineEmptyValue(key: string)
    requires '=' !in key && (|key| == 0 || !IsSpace(StrBlanks, key[0]))
    ensures ParseLine(key + "=") == Some((key, ""))
  {
    var line := key + "=";
    assert line[|line| - 1] == '=';
    assert |key| > 0 ==> line[0] == key[0];
    StripUnchanged(StrBlanks, line);
    assert line == key + "=" + "";
    ParseLineSpec(line, key, "");
  }

  /** What each line contributes, in file order. */
  function Entries(lines: seq<string>): seq<Option<(string, string)>>
  {
    seq(|lines|, i requires 0 <= i < |lines| => ParseLine(lines[i]))
  }

  /** The value of the last entry that stores `key`, if any. */
  function Find(entries: seq<Option<(string, string)>>, key: string): Option<string>
  {
    if |entries| == 0 then None
    else
      match entries[|entries| - 1]
      case Some((k, v)) =>
        if k == key then Some(v) else Find(entries[..|entries| - 1], key)
      case None => Find(entries[..|entries| - 1], key)
  }

  /** Reference meaning of the parsed map: the value of the LAST line that
      stores `key`, if any. */
  function Lookup(lines: seq<string>, key: string): Option<string>
  {
    Find(Entries(lines), key)
  }

  /** The `while True: readline()` loop of dyn_mc.py:10-18 (identical at
      dynmc.py:145-153), over the lines `readline` returns. */
  method ParseProperties(lines: seq<string>) returns (props: map<string, string>)
    ensures forall key :: key in props <==> Lookup(lines, key).Some?
    ensures forall key :: key in props ==> props[key] == Lookup(lines, key).value
  {
    props := map[];
    var i := 0;
    while i < |lines|
      invariant 0 <= i <= |lines|
      invariant forall key :: key in props <==> Lookup(lines[..i], key).Some?
      invariant forall key :: key in props ==> props[key] == Lookup(lines[..i], key).value
    {
      ghost var before := props;
      var entry := ParseLine(lines[i]);
      if entry.Some? {
        props := props[entry.value.0 := entry.value.1];
      }
      StoreStep(lines, i, before, props);
      i := i + 1;
    }
    assert lines[..i] == lines;
  }

  /** One loop iteration keeps the map equal to the lookup over the lines read so far. */
  lemma {:induction false} StoreStep(lines: seq<string>, i: nat, props: map<string, string>, next: map<string, string>)
    requires i < |lines|
    requires forall key :: key in props <==> Lookup(lines[..i], key).Some?
    requires forall key :: key in props ==> props[key] == Lookup(lines[..i], key).value
    requires next == if ParseLine(lines[i]).Some? then props[ParseLine(lines[i]).value.0 := ParseLine(lines[i]).value.1] else props
    ensures forall key :: key in next <==> Lookup(lines[..i + 1], key).Some?
    ensures forall key :: key in next ==> next[key] == Lookup(lines[..i + 1], key).value
  {
    assert lines[..i + 1] == lines[..i] + [lines[i]];
    EntriesSnoc(lines[..i], lines[i]);
    var e := ParseLine(lines[i]);
    forall key: string
      ensures key in next <==> Find(Entries(lines[..i]) + [e], key).Some?
      ensures key in next ==> next[key] == Find(Entries(lines[..i]) + [e], key).value
    {
      FindSnoc(Entries(lines[..i]), e, key);
    }
  }

  lemma {:induction false} EntriesSnoc(lines: seq<string>, line: string)
    ensures Entries(lines + [line]) == Entries(lines) + [ParseLine(line)]
  {
  }

  /** One more entry decides the key if it stores it, else the earlier ones do. */
  lemma {:induction false} FindSnoc(entries: seq<Option<(string, string)>>, e: Option<(string, string)>, key: string)
    ensures Find(entries + [e], key) ==
              if e.Some? && e.value.0 == key then Some(e.value.1) else Find(entries, key)
  {
    assert (entries + [e])[..|entries|] == entries;
  }

  /** One more line: it decides the key if it stores it, else the earlier lines do. */
  lemma {:induction false} LookupSnoc(lines: seq<string>, line: string, key: string)
    ensures Lookup(lines + [line], key) ==
              if ParseLine(line).Some? && ParseLine(line).value.0 == key then Some(ParseLine(line).value.1)
              else Lookup(lines, key)
  {
    EntriesSnoc(lines, line);
    FindSnoc(Entries(lines), ParseLine(line), key);
  }

  lemma {:induction false} FindLastWins(entries: seq<Option<(string, string)>>, i: nat, key: string, value: string)
    requires i < |entries| && entries[i] == Some((key, value))
    requires forall j :: i < j < |entries| ==> entries[j].None? || entries[j].value.0 != key
    ensures Find(entries, key) == Some(value)
    decreases |entries|
  {
    var init := entries[..|entries| - 1];
    assert entries == init + [entries[|entries| - 1]];
    FindSnoc(init, entries[|entries| - 1], key);
    if i < |entries| - 1 {
      FindLastWins(init, i, key, value);
    }
  }

  /** When a key repeats, the last line that stores it wins. */
  lemma {:induction false} LastWins(lines: seq<string>, i: nat, key: string, value: string)
    requires i < |lines| && ParseLine(lines[i]) == Some((key, value))
    requires forall j :: i < j < |lines| ==> ParseLine(lines[j]).None? || ParseLine(lines[j]).value.0 != key
    ensures Lookup(lines, key) == Some(value)
  {
    FindLastWins(Entries(lines), i, key, value);
  }

  /** A found value comes from an entry that stores it under that key. */
  lemma {:induction false} FindFromEntry(entries: seq<Option<(string, string)>>, key: string)
    requires Find(entries, key).Some?
    ensures exists i :: 0 <= i < |entries| && entries[i] == Some((key, Find(entries, key).value))
    decreases |entries|
  {
    var last := |entries| - 1;
    if entries[last].Some? && entries[last].value.0 == key {
      assert entries[last] == Some((key, Find(entries, key).value));
    } else {
      FindFromEntry(entries[..last], key);
      var i :| 0 <= i < last && entries[..last][i] == Some((key, Find(entries, key).value));
      assert entries[..last][i] == entries[i];
    }
  }

  /** Every stored value comes from some line that stores it under that key. */
  lemma {:induction false} LookupFromLine(lines: seq<string>, key: string)
    requires Lookup(lines, key).Some?
    ensures exists i :: 0 <= i < |lines| && ParseLine(lines[i]) == Some((key, Lookup(lines, key).value))
  {
    FindFromEntry(Entries(lines), key);
    var i :| 0 <= i < |lines| && Entries(lines)[i] == Some((key, Lookup(lines, key).value));
  }

  /** Lines that do not parse can be dropped anywhere without changing the map. */
  lemma {:induction false} SkippedLineIrrelevant(before: seq<string>, line: string, after: seq<string>, key: string)
    requires ParseLine(line).None?
    ensures Lookup(before + [line] + after, key) == Lookup(before + after, key)
    decreases |after|
  {
    if |after| == 0 {
      assert before + [line] + after == before + [line];
      assert before + after == before;
      LookupSnoc(before, line, key);
    } else {
      var a := after[..|after| - 1];
      var last := after[|after| - 1];
      assert before + [line] + after == (before + [line] + a) + [last];
      assert before + after == (before + a) + [last];
      LookupSnoc(before + [line] + a, last, key);
      LookupSnoc(before + a, last, key);
      SkippedLineIrrelevant(before, line, a, key);
    }
  }

  /** `dict.get(key, default)`. */
  function Get(props: map<string, string>, key: string, default: string): string
  {
    if key in props then props[key] else default
  }

  /** The outcome of the rcon check in dyn_mc.py:20-26. */
  datatype RconCheck = RconReady | RconPortMissing | RconDisabled

  /** dyn_mc.py: a missing or empty `rcon.port` is reported first; then
      anything but exactly "true" for `enable-rcon` (absent counts as "false"). */
  function CheckRcon(props: map<string, string>): (r: RconCheck)
    ensures r == RconPortMissing <==> "rcon.port" !in props || props["rcon.port"] == ""
    ensures r == RconDisabled <==>
              && "rcon.port" in props && props["rcon.port"] != ""
              && ("enable-rcon" !in props || props["enable-rcon"] != "true")
    ensures r == RconReady <==>
              && "rcon.port" in props && props["rcon.port"] != ""
              && "enable-rcon" in props && props["enable-rcon"] == "true"
  {
    if Get(props, "rcon.port", "") == "" then RconPortMissing
    else if Get(props, "enable-rcon", "false") != "true" then RconDisabled
    else RconReady
  }

  predicate IsDigit(c: char)
  {
    '0' <= c <= '9'
  }

  /** Decimal digits with single underscores only between digits, as `int()` accepts. */
  predicate DigitGroups(t: string)
  {
    && |t| > 0 && IsDigit(t[0]) && IsDigit(t[|t| - 1])
    && (forall i :: 0 <= i < |t| ==> IsDigit(t[i]) || t[i] == '_')
    && (forall i :: 0 <= i < |t| - 1 ==> IsDigit(t[i]) || IsDigit(t[i + 1]))
  }

  /** The number the digits of `t` spell, underscores skipped. */
  function DigitsValue(t: string): nat
  {
    if |t| == 0 then 0
    else if IsDigit(t[|t| - 1]) then 10 * DigitsValue(t[..|t| - 1]) + (t[|t| - 1] as int - '0' as int)
    else DigitsValue(t[..|t| - 1])
  }

  /** `int(s)` on a string, for ASCII digits: surrounding whitespace of the
      kind `int()` skips, an optional sign, then digit groups; None where it
      raises `ValueError`. */
  function IntLiteral(s: string): Option<int>
  {
    var t := Strip(IntBlanks, s);
    if |t| > 0 && (t[0] == '+' || t[0] == '-') then
      if DigitGroups(t[1..]) then
        var magnitude: int := DigitsValue(t[1..]);
        Some(if t[0] == '-' then -magnitude else magnitude)
      else None
    else if DigitGroups(t) then Some(DigitsValue(t))
    else None
  }

  /** `str(n)` for a natural number. */
  function Decimal(n: nat): (s: string)
    ensures |s| > 0 && forall i :: 0 <= i < |s| ==> IsDigit(s[i])
  {
    var d := ['0' + (n % 10) as char];
    if n < 10 then d else Decimal(n / 10) + d
  }

  lemma {:induction false} DigitsValueDecimal(n: nat)
    ensures DigitsValue(Decimal(n)) == n
  {
    var s := Decimal(n);
    if n >= 10 {
      assert s[..|s| - 1] == Decimal(n / 10);
      DigitsValueDecimal(n / 10);
    }
  }

  lemma {:induction false} DecimalDigitGroups(n: nat)
    ensures DigitGroups(Decimal(n))
  {
    var d := Decimal(n);
    assert IsDigit(d[0]) && IsDigit(d[|d| - 1]);
  }

  /** A digit is neither whitespace nor a sign. */
  lemma {:induction false} DigitNotSpace(w: Blanks, c: char)
    requires IsDigit(c)
    ensures !IsSpace(w, c) && c != '+' && c != '-'
  {
  }

  /** Unsigned digit groups after stripping are read as their value. */
  lemma {:induction false} IntLiteralUnsigned(s: string)
    requires DigitGroups(Strip(IntBlanks, s))
    ensures IntLiteral(s) == Some(DigitsValue(Strip(IntBlanks, s)) as int)
  {
    DigitNotSpace(IntBlanks, Strip(IntBlanks, s)[0]);
  }

  /** A minus sign then digit groups after stripping are read as the negated value. */
  lemma {:induction false} IntLiteralMinus(s: string)
    requires |Strip(IntBlanks, s)| > 0 && Strip(IntBlanks, s)[0] == '-' && DigitGroups(Strip(IntBlanks, s)[1..])
    ensures IntLiteral(s) == Some(0 - DigitsValue(Strip(IntBlanks, s)[1..]))
  {
  }

  /** `int()` reads back what `str()` writes. */
  lemma {:induction false} IntLiteralDecimal(n: nat)
    ensures IntLiteral(Decimal(n)) == Some(n)
  {
    var d := Decimal(n);
    DecimalDigitGroups(n);
    DigitNotSpace(IntBlanks, d[0]);
    DigitNotSpace(IntBlanks, d[|d| - 1]);
    StripUnchanged(IntBlanks, d);
    IntLiteralUnsigned(d);
    DigitsValueDecimal(n);
  }

  /** ... with a minus sign and surrounding whitespace too, of the kind `int()` skips. */
  lemma {:induction false} IntLiteralNegative(p: string, n: nat, q: string)
    requires AllSpace(IntBlanks, p) && AllSpace(IntBlanks, q)
    ensures IntLiteral(p + ("-" + Decimal(n)) + q) == Some(0 - n as int)
  {
    var d := Decimal(n);
    var core := "-" + d;
    DigitNotSpace(IntBlanks, d[|d| - 1]);
    assert core[0] == '-' && core[1..] == d && core[|core| - 1] == d[|d| - 1];
    StripSurrounded(IntBlanks, p, core, q);
    DecimalDigitGroups(n);
    IntLiteralMinus(p + core + q);
    DigitsValueDecimal(n);
  }

  /** An ASCII separator U+001C..U+001F before a number is whitespace to
      `str.strip()` but makes `int()` raise. */
  lemma {:induction false} IntLiteralSeparator(c: char, n: nat)
    requires 0x1C <= c as int <= 0x1F
    ensures Strip(StrBlanks, [c] + Decimal(n)) == Decimal(n)
    ensures IntLiteral([c] + Decimal(n)) == None
  {
    SeparatorStripped(c, Decimal(n));
    SeparatorKept(c, Decimal(n));
  }

  lemma {:induction false} SeparatorStripped(c: char, d: string)
    requires 0x1C <= c as int <= 0x1F
    requires |d| > 0 && IsDigit(d[0]) && IsDigit(d[|d| - 1])
    ensures Strip(StrBlanks, [c] + d) == d
  {
    DigitNotSpace(StrBlanks, d[0]);
    DigitNotSpace(StrBlanks, d[|d| - 1]);
    assert AllSpace(StrBlanks, [c]) && AllSpace(StrBlanks, []);
    StripSurrounded(StrBlanks, [c], d, []);
    assert [c] + d + [] == [c] + d;
  }

  lemma {:induction false} SeparatorKept(c: char, d: string)
    requires 0x1C <= c as int <= 0x1F
    requires |d| > 0 && IsDigit(d[|d| - 1])
    ensures IntLiteral([c] + d) == None
  {
    var t := [c] + d;
    assert t[0] == c && t[|t| - 1] == d[|d| - 1];
    DigitNotSpace(IntBlanks, d[|d| - 1]);
    StripUnchanged(IntBlanks, t);
    assert !IsDigit(t[0]) && t[0] != '+' && t[0] != '-';
  }

  /** An empty string is not a number. */
  lemma {:induction false} IntLiteralEmpty()
    ensures IntLiteral("") == None
  {
  }

  /** The startup failures of dynmc.py:155-176: the four os._exit(1) paths,
      `int()` raising on a port, and the KeyError on a missing password. */
  datatype StartupError =
    | ServerPortNotSpecified
    | ServerPortNotInt
    | RconPortNotSpecified
    | RconPortNotInt
    | RconNotEnabled
    | RconPasswordMissing

  datatype Settings = Settings(bindAddress: string, serverPort: int, rconPort: int, rconPassword: string, motd: string)

  /** dynmc.py:155-176, in the source's order. Unlike dyn_mc.py, an empty
      `rcon.port` passes the presence check (and then fails `int()`), and
      only a literal "false" for `enable-rcon` is rejected. */
  function LoadSettings(props: map<string, string>): (r: Result<Settings, StartupError>)
    ensures r == Err(ServerPortNotSpecified) <==> "server-port" !in props
    ensures r == Err(ServerPortNotInt) <==>
              "server-port" in props && IntLiteral(props["server-port"]).None?
    ensures r == Err(RconPortNotSpecified) <==>
              && "server-port" in props && IntLiteral(props["server-port"]).Some?
              && "rcon.port" !in props
    ensures r == Err(RconPortNotInt) <==>
              && "server-port" in props && IntLiteral(props["server-port"]).Some?
              && "rcon.port" in props && IntLiteral(props["rcon.port"]).None?
    ensures r == Err(RconNotEnabled) <==>
              && "server-port" in props && IntLiteral(props["server-port"]).Some?
              && "rcon.port" in props && IntLiteral(props["rcon.port"]).Some?
              && Get(props, "enable-rcon", "false") == "false"
    ensures r == Err(RconPasswordMissing) <==>
              && "server-port" in props && IntLiteral(props["server-port"]).Some?
              && "rcon.port" in props && IntLiteral(props["rcon.port"]).Some?
              && Get(props, "enable-rcon", "false") != "false"
              && "rcon.password" !in props
    ensures r.Ok? <==>
              && "server-port" in props && IntLiteral(props["server-port"]).Some?
              && "rcon.port" in props && IntLiteral(props["rcon.port"]).Some?
              && Get(props, "enable-rcon", "false") != "false"
              && "rcon.password" in props
    ensures r.Ok? ==>
              && r.value.serverPort == IntLiteral(props["server-port"]).value
              && r.value.rconPort == IntLiteral(props["rcon.port"]).value
              && r.value.rconPassword == props["rcon.password"]
              && r.value.bindAddress == (if "server-ip" in props then props["server-ip"] else "0.0.0.0")
              && r.value.motd == (if "motd" in props then props["motd"] else "")
  {
    if "server-port" !in props then Err(ServerPortNotSpecified)
    else
      var bindAddress := Get(props, "server-ip", "0.0.0.0");
      match IntLiteral(props["server-port"])
      case None => Err(ServerPortNotInt)
      case Some(serverPort) =>
        if "rcon.port" !in props then Err(RconPortNotSpecified)
        else
          match IntLiteral(props["rcon.port"])
          case None => Err(RconPortNotInt)
          case Some(rconPort) =>
            if Get(props, "enable-rcon", "false") == "false" then Err(RconNotEnabled)
            else if "rcon.password" !in props then Err(RconPasswordMissing)
            else Ok(Settings(bindAddress, serverPort, rconPort, props["rcon.password"], Get(props, "motd", "")))
  }

  /** A number is never the empty string. */
  lemma {:induction false} IntLiteralNonEmpty(s: string)
    requires IntLiteral(s).Some?
    ensures s != ""
  {
  }

  /** The two programs disagree on `enable-rcon`: any value other than
      "true" and "false" (say "yes") fails dyn_mc.py's check but passes dynmc.py's. */
  lemma {:induction false} ValidatorsDisagreeOnEnable(props: map<string, string>)
    requires "server-port" in props && IntLiteral(props["server-port"]).Some?
    requires "rcon.port" in props && IntLiteral(props["rcon.port"]).Some?
    requires "rcon.password" in props
    requires "enable-rcon" in props && props["enable-rcon"] != "true" && props["enable-rcon"] != "false"
    ensures CheckRcon(props) == RconDisabled && LoadSettings(props).Ok?
  {
    IntLiteralNonEmpty(props["rcon.port"]);
  }

  /** ... and on an empty `rcon.port`: "not specified" for dyn_mc.py, a
      failed `int()` for dynmc.py. */
  lemma {:induction false} ValidatorsDisagreeOnEmptyPort(props: map<string, string>)
    requires "server-port" in props && IntLiteral(props["server-port"]).Some?
    requires "rcon.port" in props && props["rcon.port"] == ""
    ensures CheckRcon(props) == RconPortMissing && LoadSettings(props) == Err(RconPortNotInt)
  {
    IntLiteralEmpty();
  }
}
