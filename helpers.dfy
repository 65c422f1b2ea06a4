/** Small pure helpers of the view: the line the editor highlights as a
    note's title, the outline colour parse and the rename selection. */
module ViewHelpers {
  import opened Strings

  /** A trimmed line of exactly `---` opens or closes YAML frontmatter. */
  predicate IsFence(line: string) {
    Trim(line) == "---"
  }

  predicate IsHeading(line: string) {
    StartsWith(Trim(line), "#")
  }

  predicate IsNonBlank(line: string) {
    |Trim(line)| > 0
  }

  /** The first line at or after `i` that satisfies `p`, or `|lines|`. */
  function FirstFrom(lines: seq<string>, i: nat, p: string -> bool): (r: nat)
    requires i <= |lines|
    ensures i <= r <= |lines|
    ensures r < |lines| ==> p(lines[r])
    ensures forall j :: i <= j < r ==> !p(lines[j])
    decreases |lines| - i
  {
    if i == |lines| then i
    else if p(lines[i]) then i
    else FirstFrom(lines, i + 1, p)
  }

  /** The first line after the frontmatter: 0 without frontmatter, the line
      after the closing fence, or `|lines|` when the fence is never closed. */
  function BodyStart(lines: seq<string>): (s: nat)
    ensures s <= |lines|
    ensures (|lines| == 0 || !IsFence(lines[0])) ==> s == 0
    ensures |lines| > 0 && IsFence(lines[0]) ==>
              && 1 <= s
              && (forall j :: 1 <= j < s - 1 ==> !IsFence(lines[j]))
              && (s == |lines| || (2 <= s && IsFence(lines[s - 1])))
              && (s == |lines| && (s < 2 || !IsFence(lines[s - 1])) ==> forall j :: 1 <= j < |lines| ==> !IsFence(lines[j]))
  {
    if |lines| > 0 && IsFence(lines[0]) then
      var c := FirstFrom(lines, 1, IsFence);
      if c < |lines| then c + 1 else |lines|
    else 0
  }

  /** The title line: the first heading after the frontmatter, else the
      first non-blank line after it, else line 0. */
  function TitleLine(lines: seq<string>): (r: nat)
    ensures r == 0 || r < |lines|
    ensures var s := BodyStart(lines);
            (exists i :: s <= i < |lines| && IsHeading(lines[i])) ==>
              s <= r && IsHeading(lines[r]) && forall j :: s <= j < r ==> !IsHeading(lines[j])
    ensures var s := BodyStart(lines);
            (forall i :: s <= i < |lines| ==> !IsHeading(lines[i])) &&
            (exists i :: s <= i < |lines| && IsNonBlank(lines[i])) ==>
              s <= r && IsNonBlank(lines[r]) && forall j :: s <= j < r ==> !IsNonBlank(lines[j])
    ensures var s := BodyStart(lines);
            (forall i :: s <= i < |lines| ==> !IsNonBlank(lines[i])) ==> r == 0
  {
    var s := BodyStart(lines);
    var h := FirstFrom(lines, s, IsHeading);
    if h < |lines| then h
    else
      var n := FirstFrom(lines, s, IsNonBlank);
      if n < |lines| then n else 0
  }

  /** The frontmatter skip of `findTitleLineIndex`: after a fence on the
      first line, up to and including the next fence. */
  method SkipFrontmatter(lines: seq<string>) returns (idx: nat)
    ensures idx == BodyStart(lines)
  {
    var count := |lines|;
    idx := 0;
    if count > 0 && IsFence(lines[0]) {
      idx := 1;
      while idx < count
        invariant 1 <= idx <= count
        invariant forall j :: 1 <= j < idx ==> !IsFence(lines[j])
        decreases count - idx
      {
        if IsFence(lines[idx]) {
          assert FirstFrom(lines, 1, IsFence) == idx;
          idx := idx + 1;
          return;
        }
        idx := idx + 1;
      }
    }
  }

  /** One scan loop of `findTitleLineIndex`: the first line from `from` on
      that satisfies `p`, or `|lines|` when there is none. */
  method ScanFrom(lines: seq<string>, from: nat, p: string -> bool) returns (i: nat)
    requires from <= |lines|
    ensures i == FirstFrom(lines, from, p)
  {
    i := from;
    while i < |lines|
      invariant from <= i <= |lines|
      invariant forall j :: from <= j < i ==> !p(lines[j])
    {
      if p(lines[i]) {
        return;
      }
      i := i + 1;
    }
  }

  /** `findTitleLineIndex`, over the editor's lines. */
  method FindTitleLineIndex(lines: seq<string>) returns (index: nat)
    ensures index == TitleLine(lines)
  {
    if |lines| == 0 {
      return 0;
    }
    var idx := SkipFrontmatter(lines);
    index := ScanFrom(lines, idx, IsHeading);
    if index < |lines| {
      return;
    }
    index := ScanFrom(lines, idx, IsNonBlank);
    if index == |lines| {
      index := 0;
    }
  }

  predicate IsHexDigit(c: char) {
    '0' <= c <= '9' || 'a' <= c <= 'f' || 'A' <= c <= 'F'
  }

  /** `parseInt(c, 16)` of one hex digit. */
  function HexValue(c: char): (v: nat)
    requires IsHexDigit(c)
    ensures v < 16
  {
    if '0' <= c <= '9' then c as int - '0' as int
    else if 'a' <= c <= 'f' then c as int - 'a' as int + 10
    else c as int - 'A' as int + 10
  }

  /** Matches `/^#([0-9a-fA-F]{6})$/`. */
  predicate IsHexColor(s: string) {
    |s| == 7 && s[0] == '#' && forall i :: 1 <= i < 7 ==> IsHexDigit(s[i])
  }

  /** `parseInt` of a two-digit slice. */
  function HexByte(hi: char, lo: char): (v: nat)
    requires IsHexDigit(hi) && IsHexDigit(lo)
    ensures v < 256
  {
    16 * HexValue(hi) + HexValue(lo)
  }

  /** The outline colour's red, green and blue components, when the colour
      is written `#RRGGBB`; any other colour derives no secondary colours. */
  function ParseHexColor(s: string): (r: Option<(nat, nat, nat)>)
    ensures r.Some? <==> IsHexColor(s)
    ensures r.Some? ==> r.value.0 < 256 && r.value.1 < 256 && r.value.2 < 256
  {
    if IsHexColor(s) then Some((HexByte(s[1], s[2]), HexByte(s[3], s[4]), HexByte(s[5], s[6])))
    else None
  }

  function HexDigit(v: nat): (c: char)
    requires v < 16
    ensures IsHexDigit(c) && HexValue(c) == v && !('A' <= c <= 'F')
  {
    if v < 10 then ('0' as int + v) as char else ('a' as int + v - 10) as char
  }

  /** The lower-case `#rrggbb` spelling of a colour. */
  function HexColor(r: nat, g: nat, b: nat): (s: string)
    requires r < 256 && g < 256 && b < 256
    ensures IsHexColor(s)
  {
    ['#', HexDigit(r / 16), HexDigit(r % 16), HexDigit(g / 16), HexDigit(g % 16), HexDigit(b / 16), HexDigit(b % 16)]
  }

  function LowerHexDigit(c: char): char {
    if 'A' <= c <= 'F' then (c as int - 'A' as int + 'a' as int) as char else c
  }

  /** Every colour is read back from its spelling. */
  lemma HexColorRoundTrip(r: nat, g: nat, b: nat)
    requires r < 256 && g < 256 && b < 256
    ensures ParseHexColor(HexColor(r, g, b)) == Some((r, g, b))
  {
    var s := HexColor(r, g, b);
    assert HexByte(s[1], s[2]) == r;
    assert HexByte(s[3], s[4]) == g;
    assert HexByte(s[5], s[6]) == b;
  }

  lemma HexDigitOfValue(c: char)
    requires IsHexDigit(c)
    ensures HexDigit(HexValue(c)) == LowerHexDigit(c)
  {
  }

  lemma HexByteDigits(hi: char, lo: char)
    requires IsHexDigit(hi) && IsHexDigit(lo)
    ensures HexByte(hi, lo) / 16 == HexValue(hi) && HexByte(hi, lo) % 16 == HexValue(lo)
  {
  }

  /** Spelling the byte read from two digits gives the digits back in
      lower case. */
  lemma SpellHexByte(hi: char, lo: char)
    requires IsHexDigit(hi) && IsHexDigit(lo)
    ensures HexDigit(HexByte(hi, lo) / 16) == LowerHexDigit(hi)
    ensures HexDigit(HexByte(hi, lo) % 16) == LowerHexDigit(lo)
  {
    HexByteDigits(hi, lo);
    HexDigitOfValue(hi);
    HexDigitOfValue(lo);
  }

  /** Parsing a colour and spelling it again only lowers its case. */
  lemma ParseThenSpell(s: string)
    requires IsHexColor(s)
    ensures var v := ParseHexColor(s).value;
            HexColor(v.0, v.1, v.2) == [s[0]] + seq(6, i requires 0 <= i < 6 => LowerHexDigit(s[i + 1]))
  {
    SpellHexByte(s[1], s[2]);
    SpellHexByte(s[3], s[4]);
    SpellHexByte(s[5], s[6]);
    var u := [s[0]] + seq(6, i requires 0 <= i < 6 => LowerHexDigit(s[i + 1]));
    assert u == [s[0], LowerHexDigit(s[1]), LowerHexDigit(s[2]), LowerHexDigit(s[3]),
                 LowerHexDigit(s[4]), LowerHexDigit(s[5]), LowerHexDigit(s[6])];
  }

  /** The end of the text selected when a rename starts: a file's name is
      selected up to its extension when it has a last dot that is not its
      first character and at most three characters follow that dot;
      otherwise the whole name is selected. */
  function RenameSelectionEnd(name: string): (e: nat)
    ensures e <= |name|
    ensures e < |name| <==>
              exists k :: 0 < k < |name| && name[k] == '.' && |name| - k <= 4 && '.' !in name[k + 1..]
    ensures e < |name| ==> name[e] == '.' && '.' !in name[e + 1..]
  {
    var ext := LastIndexOf(name, '.');
    if ext > 0 && ext > |name| - 5 then
      ext
    else
      |name|
  }
}
