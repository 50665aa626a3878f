/** The patch-version bump of the pre-commit script (scripts/auto-bump.mjs): the part of
    the version before the first '-' is split on '.', each piece is read with
    `parseInt(piece, 10)`, missing parts are padded with zeros up to three, the third part
    is incremented, and the pieces are joined again in front of the untouched suffix. */
module AutoBump {
  import opened Seqs
  import opened Text

  /** The values `parseInt` yields and the bump computes with: an integer, or NaN. */
  datatype Number = Int(value: int) | NaN

  predicate IsDigit(c: char) {
    '0' <= c <= '9'
  }

  predicate AllDigits(s: string) {
    forall i :: 0 <= i < |s| ==> IsDigit(s[i])
  }

  /** The longest prefix of `s` made of decimal digits. */
  function DigitPrefix(s: string): (d: string)
    ensures |d| <= |s| && d == s[..|d|]
    ensures AllDigits(d)
    ensures |d| < |s| ==> !IsDigit(s[|d|])
  {
    if |s| > 0 && IsDigit(s[0]) then [s[0]] + DigitPrefix(s[1..]) else ""
  }

  /** The value of a string of decimal digits. */
  function DigitsValue(d: string): nat
    requires AllDigits(d)
  {
    if |d| == 0 then 0 else DigitsValue(d[..|d| - 1]) * 10 + (d[|d| - 1] as int - '0' as int)
  }

  /** `parseInt(s, 10)`: leading whitespace is skipped, then an optional sign, then the
      longest run of digits is read; without a digit the result is NaN. */
  function ParseInt(s: string): Number {
    var t := TrimStart(s);
    var signed := |t| > 0 && (t[0] == '+' || t[0] == '-');
    var body := if signed then t[1..] else t;
    var d := DigitPrefix(body);
    if d == "" then NaN
    else
      var v: int := DigitsValue(d);
      if signed && t[0] == '-' then Int(-v) else Int(v)
  }

  function DigitChar(k: nat): char
    requires k < 10
  {
    ('0' as int + k) as char
  }

  /** The decimal digits of `n`, without leading zeros. */
  function ShowDigits(n: nat): (d: string)
    ensures |d| > 0 && AllDigits(d)
    ensures DigitsValue(d) == n
    ensures |d| > 1 ==> d[0] != '0'
  {
    if n < 10 then [DigitChar(n)]
    else
      var init := ShowDigits(n / 10);
      var d := init + [DigitChar(n % 10)];
      assert d[..|d| - 1] == init;
      d
  }

  /** `String(x)` for the numbers of the bump. */
  function Show(x: Number): string {
    match x
    case NaN => "NaN"
    case Int(v) => if v < 0 then "-" + ShowDigits(-v) else ShowDigits(v)
  }

  lemma {:induction false} DigitPrefixOfDigits(d: string, rest: string)
    requires AllDigits(d)
    requires rest == [] || !IsDigit(rest[0])
    ensures DigitPrefix(d + rest) == d
  {
    if |d| > 0 {
      assert (d + rest)[1..] == d[1..] + rest;
      DigitPrefixOfDigits(d[1..], rest);
      assert d == [d[0]] + d[1..];
    } else {
      assert d + rest == rest;
    }
  }

  lemma TrimStartKeeps(s: string)
    requires s != [] && !IsSpace(s[0])
    ensures TrimStart(s) == s
  {
  }

  /** A string of digits reads as its decimal value. */
  lemma ParseIntOfDigits(s: string)
    requires |s| > 0 && AllDigits(s)
    ensures ParseInt(s) == Int(DigitsValue(s))
  {
    assert IsDigit(s[0]);
    assert !IsSpace(s[0]) && s[0] != '+' && s[0] != '-';
    TrimStartKeeps(s);
    DigitPrefixOfDigits(s, []);
    assert s + [] == s;
    assert DigitPrefix(s) == s;
  }

  /** A blank string reads as NaN. */
  lemma ParseIntOfBlank(s: string)
    requires AllSpace(s)
    ensures ParseInt(s) == NaN
  {
  }

  lemma ParseShowNaN()
    ensures ParseInt(Show(NaN)) == NaN
  {
    var s := Show(NaN);
    TrimStartKeeps(s);
    assert DigitPrefix(s) == "";
  }

  lemma ParseShowNonNegative(v: nat)
    ensures ParseInt(Show(Int(v))) == Int(v)
  {
    var d := ShowDigits(v);
    DigitPrefixOfDigits(d, []);
    assert d + [] == d;
    TrimStartKeeps(d);
  }

  lemma ParseShowNegative(v: int)
    requires v < 0
    ensures ParseInt(Show(Int(v))) == Int(v)
  {
    var d := ShowDigits(-v);
    DigitPrefixOfDigits(d, []);
    assert d + [] == d;
    var s := "-" + d;
    TrimStartKeeps(s);
    assert s[1..] == d;
  }

  /** Reading back what `String` wrote gives the number again. */
  lemma ParseShow(x: Number)
    ensures ParseInt(Show(x)) == x
  {
    match x
    case NaN => ParseShowNaN();
    case Int(v) =>
      if v < 0 {
        ParseShowNegative(v);
      } else {
        ParseShowNonNegative(v);
      }
  }

  /** Without a '-' in the piece, `parseInt` yields NaN or a number that is not negative. */
  lemma ParseWithoutMinus(s: string)
    requires '-' !in s
    ensures ParseInt(s) == NaN || ParseInt(s).value >= 0
  {
  }

  // ---------------------------------------------------------------------------------
  // The bump

  /** `core.split('.').map((n) => parseInt(n, 10))` */
  function ParseParts(core: string): (parts: seq<Number>)
    ensures |parts| >= 1
  {
    Map(ParseInt, SplitOn(core, '.'))
  }

  /** `parts.join('.')` */
  function Render(parts: seq<Number>): string {
    JoinWith(Map(Show, parts), '.')
  }

  /** `while (parts.length < 3) parts.push(0)` */
  function Padded(parts: seq<Number>): (r: seq<Number>)
    ensures |r| == if |parts| < 3 then 3 else |parts|
    ensures r[..|parts|] == parts
    ensures forall i :: |parts| <= i < |r| ==> r[i] == Int(0)
    decreases 3 - |parts|
  {
    if |parts| >= 3 then parts
    else
      var r := Padded(parts + [Int(0)]);
      assert r[..|parts|] == r[..|parts| + 1][..|parts|];
      r
  }

  /** `(isFinite(p) ? p : 0) + 1` */
  function Increment(p: Number): Number {
    match p
    case Int(v) => Int(v + 1)
    case NaN => Int(1)
  }

  /** The parts after the bump: at least three; the third one incremented (a NaN counts as
      zero), a missing one counting as zero; every other part as parsed, or zero where
      padding added it. */
  function BumpParts(parts: seq<Number>): (r: seq<Number>)
    ensures |r| == if |parts| < 3 then 3 else |parts|
    ensures r[2] == Increment(if |parts| > 2 then parts[2] else Int(0))
    ensures forall i :: 0 <= i < |r| && i != 2 ==> r[i] == if i < |parts| then parts[i] else Int(0)
  {
    var p := Padded(parts);
    assert forall i :: 0 <= i < |parts| ==> p[i] == p[..|parts|][i];
    p[2 := Increment(p[2])]
  }

  /** The bumped core: `parts.join('.')` after padding and incrementing. */
  function BumpedCore(core: string): string {
    Render(BumpParts(ParseParts(core)))
  }

  /** `rest.length ? '-' + rest.join('-') : ''` */
  function Reattached(rest: seq<string>): string {
    if |rest| > 0 then "-" + JoinWith(rest, '-') else ""
  }

  /** `bumpPatch(version)` */
  function BumpedVersion(version: string): string {
    var pieces := SplitOn(version, '-');
    BumpedCore(pieces[0]) + Reattached(pieces[1..])
  }

  /** The loop of `bumpPatch`, padding the parsed parts in place. */
  method BumpPatch(version: string) returns (bumped: string)
    ensures bumped == BumpedVersion(version)
  {
    var pieces := SplitOn(version, '-');
    var core, rest := pieces[0], pieces[1..];
    var parts := ParseParts(core);
    while |parts| < 3
      invariant Padded(parts) == Padded(ParseParts(core))
      decreases 3 - |parts|
    {
      parts := parts + [Int(0)];
    }
    parts := parts[2 := Increment(parts[2])];
    bumped := Render(parts) + Reattached(rest);
  }

  /** The version is cut at its first '-': everything from there on is re-attached
      unchanged after the bumped core. */
  lemma SuffixKept(version: string)
    ensures var k := |SplitOn(version, '-')[0]|;
      BumpedVersion(version) == BumpedCore(version[..k]) + version[k..]
  {
    ReattachedIsSuffix(version);
  }

  lemma ReattachedIsSuffix(version: string)
    ensures Reattached(SplitOn(version, '-')[1..]) == version[|SplitOn(version, '-')[0]|..]
  {
    var pieces := SplitOn(version, '-');
    JoinSplit(version, '-');
    if |pieces| > 1 {
      JoinOfMany(pieces, '-');
    }
  }

  lemma JoinOfMany(pieces: seq<string>, sep: char)
    requires |pieces| > 1
    ensures JoinWith(pieces, sep)[|pieces[0]|..] == [sep] + JoinWith(pieces[1..], sep)
  {
    var j := JoinWith(pieces, sep);
    assert j == pieces[0] + ([sep] + JoinWith(pieces[1..], sep));
  }

  /** `String` writes no '.', so the rendered parts split back into themselves. */
  lemma ShowHasNoDot(x: Number)
    ensures '.' !in Show(x)
  {
    var s := Show(x);
    if x.Int? {
      var d := ShowDigits(if x.value < 0 then -x.value else x.value);
      assert forall i :: 0 <= i < |s| ==> s[i] == '-' || IsDigit(s[i]);
    }
  }

  /** Parsing the rendered parts gives the parts back. */
  lemma RenderRoundTrip(parts: seq<Number>)
    requires |parts| >= 1
    ensures ParseParts(Render(parts)) == parts
  {
    var shown := Map(Show, parts);
    forall i | 0 <= i < |shown|
      ensures '.' !in shown[i]
    {
      ShowHasNoDot(parts[i]);
    }
    SplitJoin(shown, '.');
    forall i | 0 <= i < |parts|
      ensures ParseParts(Render(parts))[i] == parts[i]
    {
      ParseShow(parts[i]);
    }
  }

  /** Reading the bumped core again gives the bumped parts: the bump changes only the
      patch number. */
  lemma ReparseBumped(core: string)
    ensures ParseParts(BumpedCore(core)) == BumpParts(ParseParts(core))
  {
    RenderRoundTrip(BumpParts(ParseParts(core)));
  }

  lemma {:induction false} JoinWithout(pieces: seq<string>, sep: char, c: char)
    requires c != sep
    requires forall i :: 0 <= i < |pieces| ==> c !in pieces[i]
    ensures c !in JoinWith(pieces, sep)
  {
    if |pieces| > 1 {
      JoinWithout(pieces[1..], sep, c);
    }
  }

  /** The numbers `parseInt` yields from pieces without a '-'. */
  predicate NonNegative(x: Number) {
    x.NaN? || x.value >= 0
  }

  lemma ShowNonNegative(x: Number)
    requires NonNegative(x)
    ensures '-' !in Show(x)
  {
    if x.Int? {
      var d := ShowDigits(x.value);
      assert forall i :: 0 <= i < |d| ==> IsDigit(d[i]);
    }
  }

  lemma {:induction false} InPieceInJoin(pieces: seq<string>, sep: char, i: nat)
    requires i < |pieces|
    ensures forall c :: c in pieces[i] ==> c in JoinWith(pieces, sep)
  {
    if |pieces| > 1 && i > 0 {
      InPieceInJoin(pieces[1..], sep, i - 1);
    }
  }

  /** The core of a version has no '-', so its parts are not negative. */
  lemma PartsNonNegative(core: string)
    requires '-' !in core
    ensures forall i :: 0 <= i < |ParseParts(core)| ==> NonNegative(ParseParts(core)[i])
  {
    var pieces := SplitOn(core, '.');
    JoinSplit(core, '.');
    forall i | 0 <= i < |pieces|
      ensures NonNegative(ParseParts(core)[i])
    {
      InPieceInJoin(pieces, '.', i);
      ParseWithoutMinus(pieces[i]);
    }
  }

  lemma RenderNoMinus(parts: seq<Number>)
    requires forall i :: 0 <= i < |parts| ==> NonNegative(parts[i])
    ensures '-' !in Render(parts)
  {
    var shown := Map(Show, parts);
    forall i | 0 <= i < |shown|
      ensures '-' !in shown[i]
    {
      ShowNonNegative(parts[i]);
    }
    JoinWithout(shown, '.', '-');
  }

  /** The bump turns parts that are not negative into parts that are not negative. */
  lemma BumpKeepsNonNegative(parts: seq<Number>)
    requires forall i :: 0 <= i < |parts| ==> NonNegative(parts[i])
    ensures forall i :: 0 <= i < |BumpParts(parts)| ==> NonNegative(BumpParts(parts)[i])
  {
    var b := BumpParts(parts);
    forall i | 0 <= i < |b|
      ensures NonNegative(b[i])
    {
      if i == 2 && |parts| > 2 {
        assert NonNegative(parts[2]);
      }
    }
  }

  /** The bumped core of a version has no '-'. */
  lemma BumpedCoreHasNoMinus(core: string)
    requires '-' !in core
    ensures '-' !in BumpedCore(core)
  {
    var parts := ParseParts(core);
    PartsNonNegative(core);
    BumpKeepsNonNegative(parts);
    RenderNoMinus(BumpParts(parts));
  }

  /** A text free of '-' followed by nothing or by a '-' is the first piece of the
      whole. */
  lemma FirstPieceOf(head: string, suffix: string)
    requires '-' !in head
    requires suffix == [] || suffix[0] == '-'
    ensures SplitOn(head + suffix, '-')[0] == head
    ensures (head + suffix)[|head|..] == suffix
  {
    if suffix == [] {
      assert head + suffix == head;
      SplitOfSepFree(head, '-');
    } else {
      assert head + suffix == head + ['-'] + suffix[1..];
      SplitAppend(head, suffix[1..], '-');
    }
  }

  /** What follows the first piece of a version is nothing or starts with '-'. */
  lemma AfterFirstPiece(version: string)
    ensures var k := |SplitOn(version, '-')[0]|;
      '-' !in version[..k] && (version[k..] == [] || version[k..][0] == '-')
  {
  }

  /** The bumped version splits at the end of its bumped core, followed by the old
      suffix. */
  lemma SplitOfBumped(version: string)
    ensures var k := |SplitOn(version, '-')[0]|;
      var once := BumpedVersion(version);
      && SplitOn(once, '-')[0] == BumpedCore(version[..k])
      && once[|BumpedCore(version[..k])|..] == version[k..]
  {
    var k := |SplitOn(version, '-')[0]|;
    AfterFirstPiece(version);
    SuffixKept(version);
    BumpedCoreHasNoMinus(version[..k]);
    FirstPieceOf(BumpedCore(version[..k]), version[k..]);
  }

  /** Bumping twice increments the patch number twice and keeps the suffix. */
  lemma BumpTwice(version: string)
    ensures var k := |SplitOn(version, '-')[0]|;
      BumpedVersion(BumpedVersion(version)) ==
        Render(BumpParts(BumpParts(ParseParts(version[..k])))) + version[k..]
  {
    var k := |SplitOn(version, '-')[0]|;
    var core := version[..k];
    var once := BumpedVersion(version);
    SplitOfBumped(version);
    SuffixKept(once);
    assert once[..|BumpedCore(core)|] == BumpedCore(core);
    ReparseBumped(core);
  }

  lemma ShowSmall(k: nat)
    requires k < 10
    ensures Show(Int(k)) == [DigitChar(k)]
  {
  }

  /** Three one-digit parts render as "a.b.c". */
  lemma RenderThree(a: nat, b: nat, c: nat)
    requires a < 10 && b < 10 && c < 10
    ensures Render([Int(a), Int(b), Int(c)]) == [DigitChar(a), '.', DigitChar(b), '.', DigitChar(c)]
  {
    ShowSmall(a);
    ShowSmall(b);
    ShowSmall(c);
    var shown := Map(Show, [Int(a), Int(b), Int(c)]);
    assert shown == [[DigitChar(a)], [DigitChar(b)], [DigitChar(c)]];
    var tail := [[DigitChar(b)], [DigitChar(c)]];
    assert shown[1..] == tail && tail[1..] == [[DigitChar(c)]];
    assert JoinWith(tail, '.') == [DigitChar(b)] + ['.'] + [DigitChar(c)];
    assert JoinWith(shown, '.') == [DigitChar(a)] + ['.'] + JoinWith(tail, '.');
  }

  /** Two one-digit parts render as "a.b". */
  lemma RenderTwo(a: nat, b: nat)
    requires a < 10 && b < 10
    ensures Render([Int(a), Int(b)]) == [DigitChar(a), '.', DigitChar(b)]
  {
    ShowSmall(a);
    ShowSmall(b);
    var shown := Map(Show, [Int(a), Int(b)]);
    assert shown == [[DigitChar(a)], [DigitChar(b)]];
    assert shown[1..] == [[DigitChar(b)]];
    assert JoinWith(shown, '.') == [DigitChar(a)] + ['.'] + [DigitChar(b)];
  }

  /** Bumping a rendered core bumps its parts. */
  lemma BumpRendered(parts: seq<Number>)
    requires |parts| >= 1
    ensures BumpedCore(Render(parts)) == Render(BumpParts(parts))
  {
    RenderRoundTrip(parts);
  }

  lemma BumpPartsThree(a: Number, b: Number, c: int)
    ensures BumpParts([a, b, Int(c)]) == [a, b, Int(c + 1)]
  {
    var r := BumpParts([a, b, Int(c)]);
    assert r[0] == a && r[1] == b && r[2] == Int(c + 1);
  }

  lemma BumpPartsTwo(a: Number, b: Number)
    ensures BumpParts([a, b]) == [a, b, Int(1)]
  {
    var r := BumpParts([a, b]);
    assert r[0] == a && r[1] == b && r[2] == Int(1);
  }

  /** Bumping a rendered three-part core increments its third part. */
  lemma BumpThreeParts(a: nat, b: nat, c: nat)
    ensures BumpedCore(Render([Int(a), Int(b), Int(c)])) == Render([Int(a), Int(b), Int(c + 1)])
  {
    BumpRendered([Int(a), Int(b), Int(c)]);
    BumpPartsThree(Int(a), Int(b), c);
  }

  /** Bumping a rendered two-part core appends a patch number of one. */
  lemma BumpTwoParts(a: nat, b: nat)
    ensures BumpedCore(Render([Int(a), Int(b)])) == Render([Int(a), Int(b), Int(1)])
  {
    BumpRendered([Int(a), Int(b)]);
    BumpPartsTwo(Int(a), Int(b));
  }

  lemma CoreOneTwoThree(core: string)
    requires core == "1.2.3"
    ensures BumpedCore(core) == "1.2.4"
  {
    RenderThree(1, 2, 3);
    RenderThree(1, 2, 4);
    BumpThreeParts(1, 2, 3);
  }

  lemma CoreOneTwo(core: string)
    requires core == "1.2"
    ensures BumpedCore(core) == "1.2.1"
  {
    RenderTwo(1, 2);
    RenderThree(1, 2, 1);
    BumpTwoParts(1, 2);
  }

  lemma ReattachedOne(piece: string)
    ensures Reattached([piece]) == "-" + piece
  {
  }

  /** A version with one '-' is its bumped core, a '-' and the rest. */
  lemma BumpOneSuffix(version: string, core: string, rest: string)
    requires version == core + ['-'] + rest
    requires '-' !in core && '-' !in rest
    ensures BumpedVersion(version) == BumpedCore(core) + ("-" + rest)
  {
    SplitAppend(core, rest, '-');
    SplitOfSepFree(rest, '-');
    assert SplitOn(version, '-') == [core, rest];
    ReattachedOne(rest);
  }

  /** "1.2.3-beta.1" becomes "1.2.4-beta.1". */
  lemma BumpWithSuffix(version: string)
    requires version == "1.2.3-beta.1"
    ensures BumpedVersion(version) == "1.2.4-beta.1"
  {
    var core, rest := "1.2.3", "beta.1";
    assert version == core + ['-'] + rest;
    BumpOneSuffix(version, core, rest);
    CoreOneTwoThree(core);
    SuffixExample("1.2.4", rest);
  }

  lemma SuffixExample(core: string, rest: string)
    requires core == "1.2.4" && rest == "beta.1"
    ensures core + ("-" + rest) == "1.2.4-beta.1"
  {
  }

  /** "1.2" is padded to "1.2.0" and becomes "1.2.1". */
  lemma BumpPadded(version: string)
    requires version == "1.2"
    ensures BumpedVersion(version) == "1.2.1"
  {
    SplitOfSepFree(version, '-');
    CoreOneTwo(version);
  }
}
