/** Level-prefixed list file names: "NN_base.ext", where NN is a two-digit
    level. `parse_filename` reads such a name; the next-level export and
    the fusion of several lists build one. */
module FileNames {
  import opened Util

  /** The triple returned by `parse_filename`. */
  datatype Parsed = Parsed(base: string, ext: string, level: nat)

  /** `os.path.basename` with '/' as the separator: the part of the path
      after its last '/'. */
  function Basename(path: string): (r: string)
    ensures '/' !in r
    ensures |r| <= |path| && r == path[|path| - |r|..]
    ensures |r| < |path| ==> path[|path| - |r| - 1] == '/'
  {
    if |path| == 0 || path[|path| - 1] == '/' then ""
    else
      var r := Basename(path[..|path| - 1]) + [path[|path| - 1]];
      assert path[|path| - |r|..] == path[..|path| - 1][|path| - |r|..] + [path[|path| - 1]];
      r
  }

  lemma BasenameOfPlainName(name: string)
    requires '/' !in name
    ensures Basename(name) == name
  {
  }

  /** Index of the last '.' in `s`, if there is one. */
  function LastDot(s: string): (r: Option<nat>)
    ensures r.Some? ==> r.value < |s| && s[r.value] == '.'
                        && forall k :: r.value < k < |s| ==> s[k] != '.'
    ensures r.None? ==> '.' !in s
  {
    if |s| == 0 then None
    else if s[|s| - 1] == '.' then Some(|s| - 1)
    else LastDot(s[..|s| - 1])
  }

  predicate AllDots(s: string)
  {
    forall k :: 0 <= k < |s| ==> s[k] == '.'
  }

  /** An extension as `os.path.splitext` returns it: empty, or a '.'
      followed by characters other than '.'. */
  predicate IsExtension(e: string)
  {
    e == [] || (e[0] == '.' && '.' !in e[1..])
  }

  /** `os.path.splitext` on a name without separators: the extension
      starts at the last '.', unless only dots come before that '.' (a
      leading-dot name such as ".profile" has no extension). */
  function SplitExt(f: string): (r: (string, string))
    ensures r.0 + r.1 == f
    ensures IsExtension(r.1)
    ensures r.1 != [] ==> !AllDots(r.0)
    ensures r.1 == [] ==> forall k :: 0 <= k < |f| && f[k] == '.' ==> AllDots(f[..k])
  {
    match LastDot(f)
    case None => (f, "")
    case Some(d) =>
      if AllDots(f[..d]) then
        assert forall k :: 0 <= k < |f| && f[k] == '.' ==> k <= d && f[..k] == f[..d][..k];
        (f, "")
      else
        assert f[d..][1..] == f[d + 1..];
        (f[..d], f[d..])
  }

  /** Splitting a name that ends in a proper extension gives back the name
      and the extension. */
  lemma SplitExtOf(name: string, ext: string)
    requires IsExtension(ext)
    requires ext == [] ==> '.' !in name
    requires ext != [] ==> !AllDots(name)
    ensures SplitExt(name + ext) == (name, ext)
  {
    var f := name + ext;
    var r := SplitExt(f);
    if ext == [] {
      assert f == name;
      assert LastDot(f).None?;
    } else {
      assert f[|name|] == '.';
      assert forall k :: |name| < k < |f| ==> f[k] == ext[1..][k - |name| - 1];
      assert LastDot(f) == Some(|name|);
      assert f[..|name|] == name;
    }
  }

  predicate IsDigit(c: char) { '0' <= c <= '9' }

  function DigitValue(c: char): nat
    requires IsDigit(c)
  {
    c as int - '0' as int
  }

  function DigitChar(d: nat): (c: char)
    requires d < 10
    ensures IsDigit(c) && DigitValue(c) == d
  {
    ('0' as int + d) as char
  }

  predicate AllDigits(s: string)
  {
    forall k :: 0 <= k < |s| ==> IsDigit(s[k])
  }

  /** The number a string of decimal digits denotes (Python's `int`). */
  function DecimalValue(s: string): nat
    requires AllDigits(s)
  {
    if |s| == 0 then 0 else 10 * DecimalValue(s[..|s| - 1]) + DigitValue(s[|s| - 1])
  }

  /** `str(n)`: the decimal digits of `n`, without leading zeros. */
  function NatToString(n: nat): (s: string)
    ensures AllDigits(s) && DecimalValue(s) == n
    ensures |s| >= 1 && (|s| == 1 <==> n < 10) && (|s| == 2 <==> 10 <= n < 100)
    ensures |s| > 1 ==> s[0] != '0'
  {
    if n < 10 then [DigitChar(n)]
    else
      var s := NatToString(n / 10) + [DigitChar(n % 10)];
      assert s[..|s| - 1] == NatToString(n / 10);
      s
  }

  /** `f"{n:02d}"`: the decimal digits of `n`, padded to two with a zero. */
  function Pad2(n: nat): (s: string)
    ensures AllDigits(s) && DecimalValue(s) == n
    ensures n <= 99 ==> |s| == 2
    ensures n > 99 ==> |s| >= 3
    ensures n >= 10 ==> s[0] != '0'
  {
    if n < 10 then
      var s := "0" + NatToString(n);
      assert s[..1] == "0";
      s
    else NatToString(n)
  }

  /** A digit string without a leading zero is the `str` of its value. */
  lemma {:induction false} CanonicalDigits(t: string)
    requires AllDigits(t) && |t| >= 1 && (|t| > 1 ==> t[0] != '0')
    ensures t == NatToString(DecimalValue(t))
  {
    var d := DigitValue(t[|t| - 1]);
    if |t| == 1 {
      assert DecimalValue(t) == d;
      assert [DigitChar(d)] == t;
    } else {
      var init := t[..|t| - 1];
      assert init[0] == t[0];
      CanonicalDigits(init);
      assert DecimalValue(init) >= 1 by {
        if |init| == 1 {
          assert DecimalValue(init) == DigitValue(t[0]);
        }
      }
      var v := DecimalValue(t);
      assert v == 10 * DecimalValue(init) + d;
      assert v / 10 == DecimalValue(init) && v % 10 == d;
      assert NatToString(v) == NatToString(v / 10) + [DigitChar(v % 10)];
      assert t == init + [t[|t| - 1]];
    }
  }

  /** Pad2's contract fixes its result: any string that meets it is `Pad2(n)`. */
  lemma Pad2Unique(n: nat, t: string)
    requires AllDigits(t) && DecimalValue(t) == n
    requires n <= 99 ==> |t| == 2
    requires n > 99 ==> |t| >= 3
    requires n >= 10 ==> t[0] != '0'
    ensures t == Pad2(n)
  {
    if n >= 10 {
      CanonicalDigits(t);
    } else {
      assert DecimalValue(t[..1]) == DigitValue(t[0]);
      assert n == 10 * DigitValue(t[0]) + DigitValue(t[1]);
      assert t == [t[0], t[1]];
    }
  }

  /** What `(.*)$` can cover after the prefix: `.` does not match a line
      break, and `$` matches at the end or just before a final line break. */
  predicate OneLine(s: string)
  {
    '\n' !in s || (s[|s| - 1] == '\n' && '\n' !in s[..|s| - 1])
  }

  /** What the group `(.*)` captures of a `OneLine` string. */
  function LineBody(s: string): string
  {
    if |s| > 0 && s[|s| - 1] == '\n' then s[..|s| - 1] else s
  }

  /** Whether `^(\d{2})_(.*)$` matches `name`. */
  predicate HasLevelPrefix(name: string)
  {
    |name| >= 3 && IsDigit(name[0]) && IsDigit(name[1]) && name[2] == '_' && OneLine(name[3..])
  }

  /** `parse_filename(filepath)`. A name with the two-digit prefix yields
      its rest, its extension and the prefix's value as the level; any other
      name yields the whole name (minus extension) at level 0. */
  function ParseFilename(path: string): (r: Parsed)
    ensures r.level <= 99
    ensures '/' !in r.base && IsExtension(r.ext)
    ensures r.ext == SplitExt(Basename(path)).1
  {
    var split := SplitExt(Basename(path));
    var name := split.0;
    if HasLevelPrefix(name) then
      Parsed(LineBody(name[3..]), split.1, 10 * DigitValue(name[0]) + DigitValue(name[1]))
    else
      Parsed(name, split.1, 0)
  }

  /** What the groups of `^(\d{2})_(.*)$` capture of a name it matches. */
  lemma PrefixedNameParts(name: string)
    requires HasLevelPrefix(name)
    ensures DecimalValue(name[..2]) == 10 * DigitValue(name[0]) + DigitValue(name[1])
    ensures '\n' !in LineBody(name[3..])
    ensures name == name[..3] + LineBody(name[3..]) || name == name[..3] + LineBody(name[3..]) + "\n"
  {
    TwoDigitValue(name[..2]);
    var rest := name[3..];
    assert name == name[..3] + rest;
    if |rest| > 0 && rest[|rest| - 1] == '\n' {
      assert rest == rest[..|rest| - 1] + "\n";
    }
  }

  /** With the prefix, `parse_filename` takes the level from the two
      digits and the base from the rest of the name; the base holds no line
      break, and only a single final line break of the name is dropped. */
  lemma ParseWithPrefix(path: string)
    requires HasLevelPrefix(SplitExt(Basename(path)).0)
    ensures var r := ParseFilename(path);
            var name := SplitExt(Basename(path)).0;
            && r.level == DecimalValue(name[..2]) && '\n' !in r.base
            && (name == name[..3] + r.base || name == name[..3] + r.base + "\n")
  {
    var name := SplitExt(Basename(path)).0;
    var r := ParseFilename(path);
    assert r.base == LineBody(name[3..]);
    assert r.level == 10 * DigitValue(name[0]) + DigitValue(name[1]);
    PrefixedNameParts(name);
  }

  /** Without the prefix, `parse_filename` returns level 0, and the base
      and the extension together are the whole file name. */
  lemma ParseWithoutPrefix(path: string)
    requires !HasLevelPrefix(SplitExt(Basename(path)).0)
    ensures ParseFilename(path).level == 0
    ensures ParseFilename(path).base + ParseFilename(path).ext == Basename(path)
    ensures ParseFilename(path).base == SplitExt(Basename(path)).0
  {
  }

  lemma TwoDigitValue(s: string)
    requires |s| == 2 && AllDigits(s)
    ensures DecimalValue(s) == 10 * DigitValue(s[0]) + DigitValue(s[1])
  {
    assert s[..1][..0] == [] && s[..1][0] == s[0];
    assert DecimalValue(s[..1]) == DigitValue(s[0]);
  }

  /** A string of digits holds neither a separator nor a line break. */
  lemma DigitsAvoid(s: string)
    requires AllDigits(s)
    ensures '/' !in s && '\n' !in s && '.' !in s && '+' !in s
  {
  }

  /** A name of the form two digits, '_', rest, extension parses back to
      its rest, its extension and the level the digits encode. */
  lemma ParsePrefixed(level: nat, rest: string, ext: string)
    requires level <= 99 && '/' !in rest && '\n' !in rest
    requires IsExtension(ext) && '/' !in ext
    requires ext == [] ==> '.' !in rest
    ensures ParseFilename(Pad2(level) + "_" + rest + ext) == Parsed(rest, ext, level)
  {
    var name := Pad2(level) + "_" + rest;
    PrefixedName(level, rest);
    SplitExtOf(name, ext);
    BasenameOfPlainName(name + ext);
  }

  /** The parts of a name made of a two-digit level, '_' and a rest on one
      line. */
  lemma PrefixedName(level: nat, rest: string)
    requires level <= 99 && '/' !in rest && '\n' !in rest
    ensures var name := Pad2(level) + "_" + rest;
            && HasLevelPrefix(name) && name[3..] == rest && LineBody(rest) == rest
            && 10 * DigitValue(name[0]) + DigitValue(name[1]) == level
            && '/' !in name && !AllDots(name) && ('.' !in rest ==> '.' !in name)
  {
    var p := Pad2(level);
    var name := p + "_" + rest;
    DigitsAvoid(p);
    TwoDigitValue(p);
    assert name[0] == p[0] && name[1] == p[1] && name[2] == '_' && name[3..] == rest;
  }

  /** The name `create_new_list` gives the export of a list:
      `f"{level + 1:02d}_{base}.xlsx"`. */
  function NextLevelName(level: nat, base: string): string
  {
    Pad2(level + 1) + "_" + base + ".xlsx"
  }

  /** The next-level name parses back to its base and the raised level,
      as long as that level still has two digits. */
  lemma NextLevelNameRoundTrip(level: nat, base: string)
    requires level + 1 <= 99 && '/' !in base && '\n' !in base
    ensures ParseFilename(NextLevelName(level, base)) == Parsed(base, ".xlsx", level + 1)
  {
    ParseXlsxName(level + 1, base);
  }

  /** Exporting from a list at level 99 writes a "100_" name, which has no
      two-digit prefix: it parses back at level 0 with "100_" kept in its
      base. */
  lemma NextLevelNameOverflow(base: string)
    requires '/' !in base
    ensures ParseFilename(NextLevelName(99, base)) == Parsed("100_" + base, ".xlsx", 0)
  {
    var name := "100_" + base;
    assert NatToString(1) == "1";
    assert NatToString(10) == "10";
    assert NatToString(100) == "100";
    assert Pad2(100) == "100";
    assert NextLevelName(99, base) == name + ".xlsx";
    assert IsExtension(".xlsx") by { assert ".xlsx"[1..] == "xlsx"; }
    assert !AllDots(name) by { assert name[0] == '1'; }
    SplitExtOf(name, ".xlsx");
    assert '/' !in name + ".xlsx";
    BasenameOfPlainName(name + ".xlsx");
    assert name[2] == '0';
  }

  /** `"+".join(names)`. */
  function Join(names: seq<string>): string
  {
    if |names| == 0 then ""
    else if |names| == 1 then names[0]
    else Join(names[..|names| - 1]) + "+" + names[|names| - 1]
  }

  lemma {:induction false} JoinConcat(xs: seq<string>, ys: seq<string>)
    requires |xs| > 0 && |ys| > 0
    ensures Join(xs + ys) == Join(xs) + "+" + Join(ys)
  {
    if |ys| == 1 {
      assert (xs + ys)[..|xs + ys| - 1] == xs;
    } else {
      var ys' := ys[..|ys| - 1];
      JoinConcat(xs, ys');
      assert (xs + ys)[..|xs + ys| - 1] == xs + ys';
    }
  }

  /** A character that is neither '+' nor in any of the names is not in
      their join. */
  lemma {:induction false} JoinAvoids(names: seq<string>, c: char)
    requires c != '+' && forall i :: 0 <= i < |names| ==> c !in names[i]
    ensures c !in Join(names)
  {
    if |names| > 1 {
      JoinAvoids(names[..|names| - 1], c);
    }
  }

  /** The combined base of a fused list: the names joined with '+', or,
      when that is longer than 40 characters and there are more than two
      names, only the last two joined. */
  function CombinedBase(names: seq<string>): string
  {
    var all := Join(names);
    if |all| > 40 && |names| > 2 then Join(names[|names| - 2..]) else all
  }

  /** Whatever the length rule decides, the combined base ends with the
      last two names joined, and it is the full join whenever that is at
      most 40 characters long. */
  lemma CombinedBaseKeepsLastTwo(names: seq<string>)
    requires |names| >= 2
    ensures var last := Join(names[|names| - 2..]);
            var r := CombinedBase(names);
            |last| <= |r| && r[|r| - |last|..] == last
    ensures |Join(names)| <= 40 || |names| == 2 ==> CombinedBase(names) == Join(names)
    ensures |Join(names)| > 40 && |names| > 2 ==> CombinedBase(names) == Join(names[|names| - 2..])
  {
    if |names| > 2 && |Join(names)| <= 40 {
      var k := |names| - 2;
      JoinConcat(names[..k], names[k..]);
      assert names[..k] + names[k..] == names;
    }
  }

  /** `max(levels)`. */
  function MaxLevel(levels: seq<nat>): (m: nat)
    requires |levels| > 0
    ensures m in levels && forall k :: 0 <= k < |levels| ==> levels[k] <= m
  {
    if |levels| == 1 then levels[0]
    else
      var m := MaxLevel(levels[..|levels| - 1]);
      assert forall k :: 0 <= k < |levels| - 1 ==> levels[k] == levels[..|levels| - 1][k];
      if levels[|levels| - 1] > m then levels[|levels| - 1] else m
  }

  function ParsedAll(paths: seq<string>): (r: seq<Parsed>)
    ensures |r| == |paths| && forall i :: 0 <= i < |paths| ==> r[i] == ParseFilename(paths[i])
  {
    seq(|paths|, i requires 0 <= i < |paths| => ParseFilename(paths[i]))
  }

  function Levels(ps: seq<Parsed>): (r: seq<nat>)
    ensures |r| == |ps| && forall i :: 0 <= i < |ps| ==> r[i] == ps[i].level
  {
    seq(|ps|, i requires 0 <= i < |ps| => ps[i].level)
  }

  function Bases(ps: seq<Parsed>): (r: seq<string>)
    ensures |r| == |ps| && forall i :: 0 <= i < |ps| ==> r[i] == ps[i].base
  {
    seq(|ps|, i requires 0 <= i < |ps| => ps[i].base)
  }

  datatype FuseError = TooFewFiles | UnsupportedFileType(ext: string)

  predicate Supported(ext: string)
  {
    ext == ".xlsx" || ext == ".txt" || ext == ".dat"
  }

  /** Index of the first parsed file whose extension cannot be loaded. */
  function FirstUnsupported(ps: seq<Parsed>): (r: Option<nat>)
    ensures r.Some? ==> r.value < |ps| && !Supported(ps[r.value].ext)
                        && forall k :: 0 <= k < r.value ==> Supported(ps[k].ext)
    ensures r.None? ==> forall k :: 0 <= k < |ps| ==> Supported(ps[k].ext)
  {
    if |ps| == 0 then None
    else if !Supported(ps[0].ext) then Some(0)
    else
      var r := FirstUnsupported(ps[1..]);
      if r.Some? then Some(r.value + 1) else None
  }

  /** The name `fuse_selected_files` gives the fused list:
      `f"{max_level:02d}_{fused_type}_{combined_base}_{word_count}.xlsx"`,
      where the type is "FC" when all lists have the same number of
      columns and "FI" otherwise. Fewer than two selected files, or a file
      of a type that cannot be loaded, is an error. */
  function FusedName(paths: seq<string>, sameColumns: bool, wordCount: nat): (r: Result<string, FuseError>)
    ensures r.Err? <==> |paths| < 2 || FirstUnsupported(ParsedAll(paths)).Some?
    ensures |paths| < 2 ==> r == Err(TooFewFiles)
    ensures |paths| >= 2 && FirstUnsupported(ParsedAll(paths)).Some? ==>
              r == Err(UnsupportedFileType(ParsedAll(paths)[FirstUnsupported(ParsedAll(paths)).value].ext))
  {
    if |paths| < 2 then Err(TooFewFiles)
    else
      var ps := ParsedAll(paths);
      match FirstUnsupported(ps)
      case Some(k) => Err(UnsupportedFileType(ps[k].ext))
      case None => Ok(Pad2(MaxLevel(Levels(ps))) + "_" + FusedBase(ps, sameColumns, wordCount) + ".xlsx")
  }

  /** The part of a fused name between the level prefix and the extension:
      the type, the combined base and the word count, joined by '_'. */
  function FusedBase(ps: seq<Parsed>, sameColumns: bool, wordCount: nat): string
  {
    (if sameColumns then "FC" else "FI") + "_" + CombinedBase(Bases(ps)) + "_" + NatToString(wordCount)
  }

  lemma FusedBaseAvoids(ps: seq<Parsed>, sameColumns: bool, wordCount: nat)
    requires forall i :: 0 <= i < |ps| ==> '\n' !in ps[i].base && '/' !in ps[i].base
    ensures '/' !in FusedBase(ps, sameColumns, wordCount) && '\n' !in FusedBase(ps, sameColumns, wordCount)
  {
    CombinedBaseAvoids(Bases(ps), '/');
    CombinedBaseAvoids(Bases(ps), '\n');
    DigitsAvoid(NatToString(wordCount));
  }

  /** A character that is neither '+' nor in any of the names is not in
      the combined base. */
  lemma CombinedBaseAvoids(names: seq<string>, c: char)
    requires c != '+' && forall i :: 0 <= i < |names| ==> c !in names[i]
    ensures c !in CombinedBase(names)
  {
    JoinAvoids(names, c);
    if |names| > 2 {
      JoinAvoids(names[|names| - 2..], c);
    }
  }

  lemma FusedNameValue(paths: seq<string>, sameColumns: bool, wordCount: nat)
    requires FusedName(paths, sameColumns, wordCount).Ok?
    ensures FusedName(paths, sameColumns, wordCount).value
            == Pad2(MaxLevel(Levels(ParsedAll(paths)))) + "_" + FusedBase(ParsedAll(paths), sameColumns, wordCount) + ".xlsx"
  {
  }

  lemma FusedPartsWellFormed(paths: seq<string>, sameColumns: bool, wordCount: nat)
    requires forall i :: 0 <= i < |paths| ==> '\n' !in ParseFilename(paths[i]).base
    requires |paths| > 0
    ensures var ps := ParsedAll(paths);
            var base := FusedBase(ps, sameColumns, wordCount);
            MaxLevel(Levels(ps)) <= 99 && '/' !in base && '\n' !in base
  {
    var ps := ParsedAll(paths);
    var levels := Levels(ps);
    var k :| 0 <= k < |levels| && levels[k] == MaxLevel(levels);
    FusedBaseAvoids(ps, sameColumns, wordCount);
  }

  /** A level-prefixed ".xlsx" name parses back to its parts. */
  lemma ParseXlsxName(level: nat, base: string)
    requires level <= 99 && '/' !in base && '\n' !in base
    ensures ParseFilename(Pad2(level) + "_" + base + ".xlsx") == Parsed(base, ".xlsx", level)
  {
    assert IsExtension(".xlsx") by { assert ".xlsx"[1..] == "xlsx"; }
    ParsePrefixed(level, base, ".xlsx");
  }

  /** The fused name parses back at the highest level among the fused
      lists, with the type, the combined base and the word count as its
      base. */
  lemma FusedNameRoundTrip(paths: seq<string>, sameColumns: bool, wordCount: nat)
    requires FusedName(paths, sameColumns, wordCount).Ok?
    requires forall i :: 0 <= i < |paths| ==> '\n' !in ParseFilename(paths[i]).base
    ensures var ps := ParsedAll(paths);
            var level := MaxLevel(Levels(ps));
            (forall i :: 0 <= i < |paths| ==> ps[i].level <= level)
            && ParseFilename(FusedName(paths, sameColumns, wordCount).value)
               == Parsed(FusedBase(ps, sameColumns, wordCount), ".xlsx", level)
  {
    var ps := ParsedAll(paths);
    var levels := Levels(ps);
    FusedPartsWellFormed(paths, sameColumns, wordCount);
    FusedNameValue(paths, sameColumns, wordCount);
    ParseXlsxName(MaxLevel(levels), FusedBase(ps, sameColumns, wordCount));
    assert forall i :: 0 <= i < |paths| ==> ps[i].level == levels[i];
  }
}
