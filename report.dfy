/**
 * The change report: one section per new or changed device, in the order the
 * devices were visited, and the text the checker mails or prints for it.
 */
module Report {
  import opened NvmeData

  /** One tracked counter whose stored and current values differ. */
  datatype FieldChange = FieldChange(key: string, before: int, after: int)

  datatype Section =
    | NewDevice(path: DevicePath)
    | ChangedDevice(path: DevicePath, changes: seq<FieldChange>)

  /** The counter names of a list of changes, in the same order. */
  function ChangedKeys(cs: seq<FieldChange>): seq<string> {
    if cs == [] then [] else [cs[0].key] + ChangedKeys(cs[1..])
  }

  /** `xs` can be obtained from `ys` by deleting elements. */
  predicate IsSubsequence(xs: seq<string>, ys: seq<string>)
    decreases |ys|
  {
    if xs == [] then true
    else if ys == [] then false
    else if xs[0] == ys[0] then IsSubsequence(xs[1..], ys[1..])
    else IsSubsequence(xs, ys[1..])
  }

  // ----- Rendering -------------------------------------------------------

  const Header: string := "NVME data has updated:\n\n"

  /** Left-aligns `s` in a field of `width` characters, as the "{:20}" format does for a string. */
  function PadRight(s: string, width: nat): (r: string)
    ensures |r| == if |s| < width then width else |s|
    ensures r[..|s|] == s
    ensures forall i :: |s| <= i < |r| ==> r[i] == ' '
    decreases width - |s|
  {
    if |s| >= width then s else PadRight(s + " ", width)
  }

  function Digit(d: nat): char
    requires d < 10
  {
    ('0' as int + d) as char
  }

  predicate IsDigits(s: string) {
    forall i :: 0 <= i < |s| ==> '0' <= s[i] <= '9'
  }

  /** Decimal digits of `n`, most significant first, without leading zeros. */
  function NatToString(n: nat): (r: string)
    ensures |r| > 0 && IsDigits(r)
    ensures |r| > 1 ==> r[0] != '0'
  {
    if n < 10 then [Digit(n)] else NatToString(n / 10) + [Digit(n % 10)]
  }

  /** The number a string of decimal digits denotes. */
  function DigitsValue(s: string): nat
    requires IsDigits(s)
  {
    if s == [] then 0
    else DigitsValue(s[..|s| - 1]) * 10 + (s[|s| - 1] as int - '0' as int)
  }

  lemma {:induction false} NatToStringRoundTrip(n: nat)
    ensures DigitsValue(NatToString(n)) == n
  {
    if n >= 10 {
      var s := NatToString(n);
      assert s[..|s| - 1] == NatToString(n / 10);
      NatToStringRoundTrip(n / 10);
    }
  }

  /** Python's str() of an integer. */
  function IntToString(n: int): string {
    if n < 0 then "-" + NatToString(-n) else NatToString(n)
  }

  /** Reads back what IntToString writes: an optional minus sign, then digits. */
  function IntValue(s: string): int
    requires |s| > 0
    requires s[0] == '-' ==> IsDigits(s[1..])
    requires s[0] != '-' ==> IsDigits(s)
  {
    if s[0] == '-' then -(DigitsValue(s[1..]) as int) else DigitsValue(s)
  }

  lemma IntToStringRoundTrip(n: int)
    ensures var s := IntToString(n); |s| > 0 && (s[0] == '-' <==> n < 0)
    ensures IntValue(IntToString(n)) == n
  {
    if n < 0 {
      assert IntToString(n)[1..] == NatToString(-n);
      NatToStringRoundTrip(-n);
    } else {
      NatToStringRoundTrip(n);
    }
  }

  function ChangeLine(c: FieldChange): string {
    PadRight(c.key, 20) + " changed from " + IntToString(c.before) + " to " + IntToString(c.after) + "\n"
  }

  function ChangeLines(cs: seq<FieldChange>): string {
    if cs == [] then "" else ChangeLine(cs[0]) + ChangeLines(cs[1..])
  }

  /** The text one section adds to the report. */
  function SectionText(s: Section): string {
    match s
    case NewDevice(p) => "Found new device " + p + "\n"
    case ChangedDevice(p, cs) => "For device " + p + ":\n" + ChangeLines(cs) + "\n"
  }

  /** The texts `f` gives the elements of `ss`, joined in order. */
  function JoinMap<T>(f: T -> string, ss: seq<T>): string {
    if ss == [] then "" else JoinMap(f, ss[..|ss| - 1]) + f(ss[|ss| - 1])
  }

  lemma {:induction false} JoinMapAppend<T>(f: T -> string, a: seq<T>, b: seq<T>)
    ensures JoinMap(f, a + b) == JoinMap(f, a) + JoinMap(f, b)
  {
    if b == [] {
      assert a + b == a;
    } else {
      var b' := b[..|b| - 1];
      assert (a + b)[..|a + b| - 1] == a + b';
      JoinMapAppend(f, a, b');
    }
  }

  function SectionsText(ss: seq<Section>): string {
    JoinMap(SectionText, ss)
  }

  /** The full report text: the fixed header followed by every section in order. */
  function Render(report: seq<Section>): string {
    Header + SectionsText(report)
  }

  /** Every section ends its text with a line break, so none renders as nothing. */
  lemma SectionTextEndsLine(s: Section)
    ensures |SectionText(s)| > 0 && SectionText(s)[|SectionText(s)| - 1] == '\n'
  {
  }

  lemma {:induction false} SectionsTextLength(ss: seq<Section>)
    ensures |SectionsText(ss)| >= |ss|
  {
    if ss != [] {
      assert SectionsText(ss) == SectionsText(ss[..|ss| - 1]) + SectionText(ss[|ss| - 1]);
      SectionsTextLength(ss[..|ss| - 1]);
      SectionTextEndsLine(ss[|ss| - 1]);
    }
  }

  /** The report is just the header exactly when there is no section. */
  lemma RenderHeaderOnly(report: seq<Section>)
    ensures Render(report)[..|Header|] == Header
    ensures Render(report) == Header <==> report == []
  {
    SectionsTextLength(report);
  }

  /** Rendering is append-only: adding sections only appends their text. */
  lemma RenderAppend(a: seq<Section>, b: seq<Section>)
    ensures Render(a + b) == Render(a) + SectionsText(b)
  {
    JoinMapAppend(SectionText, a, b);
  }
}
