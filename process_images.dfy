/**
 * The photo renaming rules of scripts/process-images.rb.
 *
 * A file name is classified by a capture date taken from the name alone
 * (four regular expressions tried in a fixed order, the first match wins,
 * else the sentinel `unknown-date`). The de-duplicated file list is sorted
 * by that date string and walked once; a per-date counter gives the k-th
 * file of a date the sequence number k, and the output name is
 * `{date}-{seq}.webp` with the number written as `%03d`.
 *
 * Regular-expression semantics follow Ruby: `^` anchors at the start of the
 * string and after every "\n", `\d` is an ASCII digit, `.` is any character
 * but "\n", the leftmost match wins and `.*` is greedy.
 */
module ProcessImages {

  import opened Maybe
  import opened Decimal
  import opened Ordering

  const OutputDir := "assets/img"
  const UnknownDate := "unknown-date"

  // ---------------------------------------------------------------------------
  // Pattern primitives
  // ---------------------------------------------------------------------------

  /** Where Ruby's `^` can match: the start of the string or just after a newline. */
  predicate LineStart(s: string, p: nat)
  {
    p == 0 || (p <= |s| && s[p - 1] == '\n')
  }

  /** `\d{n}` matches at `p`. */
  predicate DigitsAt(s: string, p: nat, n: nat)
  {
    p + n <= |s| && forall k :: p <= k < p + n ==> IsDigit(s[k])
  }

  /** `\d{4}-\d{2}-\d{2}` matches at `p`. */
  predicate DashedAt(s: string, p: nat)
  {
    p + 10 <= |s| && DigitsAt(s, p, 4) && s[p + 4] == '-' && DigitsAt(s, p + 5, 2)
    && s[p + 7] == '-' && DigitsAt(s, p + 8, 2)
  }

  /** A date string as the script produces it: `DDDD-DD-DD` with ASCII digits. */
  predicate IsDateShaped(d: string)
  {
    |d| == 10 && DashedAt(d, 0)
  }

  predicate NoNewline(s: string, i: nat, j: nat)
    requires j <= |s|
  {
    forall k :: i <= k < j ==> s[k] != '\n'
  }

  /** The first newline at or after `from`, or the end of the string. */
  function LineEnd(s: string, from: nat): (e: nat)
    requires from <= |s|
    ensures from <= e <= |s| && NoNewline(s, from, e)
    ensures e == |s| || s[e] == '\n'
    decreases |s| - from
  {
    if from == |s| || s[from] == '\n' then from else LineEnd(s, from + 1)
  }

  /** The largest `q` in `[lo, hi]` at which a dashed date starts. */
  function LastDashedDate(s: string, lo: nat, hi: nat): (r: Option<nat>)
    ensures r.Some? ==> lo <= r.value <= hi && DashedAt(s, r.value)
    ensures r.Some? ==> forall q :: r.value < q <= hi ==> !DashedAt(s, q)
    ensures r.None? ==> forall q :: lo <= q <= hi ==> !DashedAt(s, q)
    decreases hi
  {
    if hi < lo then None
    else if DashedAt(s, hi) then Some(hi)
    else if hi == 0 then None
    else LastDashedDate(s, lo, hi - 1)
  }

  /**
   * What `.*(\d{4}-\d{2}-\d{2})` does after `from`: `.*` runs as far as it
   * can on the current line and backs off to the last place a date starts.
   */
  function GreedyDate(s: string, from: nat): (r: Option<nat>)
    requires from <= |s|
    ensures r.Some? ==> from <= r.value <= |s| && NoNewline(s, from, r.value) && DashedAt(s, r.value)
    ensures r.Some? ==> forall q :: r.value < q <= |s| && NoNewline(s, from, q) ==> !DashedAt(s, q)
    ensures r.None? ==> forall q :: from <= q <= |s| && NoNewline(s, from, q) ==> !DashedAt(s, q)
  {
    var e := LineEnd(s, from);
    assert forall q :: from <= q <= |s| && NoNewline(s, from, q) ==> q <= e by {
      forall q | from <= q <= |s| && NoNewline(s, from, q) ensures q <= e {
        if q > e { assert false; }
      }
    }
    var r := LastDashedDate(s, from, e);
    assert r.Some? ==> NoNewline(s, from, r.value);
    r
  }

  /** The four rules of `extract_date`, in the order they are tried. */
  datatype Rule = LeadingCompact | LeadingDashed | CameraPrefix | WhatsApp

  /** The rule's regular expression matches with its match starting at `p`. */
  predicate MatchesAt(rule: Rule, s: string, p: nat)
  {
    match rule
    // /^(\d{4})(\d{2})(\d{2})/
    case LeadingCompact => LineStart(s, p) && DigitsAt(s, p, 8)
    // /^(\d{4}-\d{2}-\d{2})/
    case LeadingDashed => LineStart(s, p) && DashedAt(s, p)
    // /(?:IMG|VID)-(\d{4})(\d{2})(\d{2})/
    case CameraPrefix =>
      p + 12 <= |s| && (s[p..p + 3] == "IMG" || s[p..p + 3] == "VID") && s[p + 3] == '-'
      && DigitsAt(s, p + 4, 8)
    // /WhatsApp.*(\d{4}-\d{2}-\d{2})/
    case WhatsApp => p + 8 <= |s| && s[p..p + 8] == "WhatsApp" && GreedyDate(s, p + 8).Some?
  }

  /** The leftmost start at or after `from` where the rule matches. */
  function Find(rule: Rule, s: string, from: nat): (r: Option<nat>)
    ensures r.Some? ==> from <= r.value <= |s| && MatchesAt(rule, s, r.value)
    ensures r.Some? ==> forall q :: from <= q < r.value ==> !MatchesAt(rule, s, q)
    ensures r.None? ==> forall q :: from <= q ==> !MatchesAt(rule, s, q)
    decreases |s| + 1 - from
  {
    if from > |s| then
      assert forall q :: from <= q ==> !MatchesAt(rule, s, q) by {
        forall q | from <= q ensures !MatchesAt(rule, s, q) {
          assert q > |s|;
        }
      }
      None
    else if MatchesAt(rule, s, from) then Some(from)
    else Find(rule, s, from + 1)
  }

  /** `"#{$1}-#{$2}-#{$3}"` for the groups `(\d{4})(\d{2})(\d{2})`. */
  function Hyphenate(d: string): (date: string)
    requires |d| == 8
  {
    d[..4] + "-" + d[4..6] + "-" + d[6..]
  }

  /** Removes the two hyphens of a date string again. */
  function Unhyphenate(date: string): string
    requires |date| == 10
  {
    date[..4] + date[5..7] + date[8..]
  }

  // ---------------------------------------------------------------------------
  // extract_date
  // ---------------------------------------------------------------------------

  /** `extract_date(filename)`. */
  function ExtractDate(name: string): (date: string)
    ensures date == UnknownDate || IsDateShaped(date)
  {
    match Find(LeadingCompact, name, 0)
    case Some(p) => HyphenateShaped(name[p..p + 8]); Hyphenate(name[p..p + 8])
    case None =>
      match Find(LeadingDashed, name, 0)
      case Some(p) => DashedSlice(name, p); name[p..p + 10]
      case None =>
        match Find(CameraPrefix, name, 0)
        case Some(p) => HyphenateShaped(name[p + 4..p + 12]); Hyphenate(name[p + 4..p + 12])
        case None =>
          match Find(WhatsApp, name, 0)
          case Some(p) =>
            var q := GreedyDate(name, p + 8).value;
            DashedSlice(name, q);
            name[q..q + 10]
          case None => UnknownDate
  }

  lemma HyphenateShaped(d: string)
    requires |d| == 8 && DigitsAt(d, 0, 8)
    ensures IsDateShaped(Hyphenate(d))
  {
    var h := Hyphenate(d);
    assert forall k :: 0 <= k < 4 ==> h[k] == d[k];
    assert forall k :: 5 <= k < 7 ==> h[k] == d[k - 1];
    assert forall k :: 8 <= k < 10 ==> h[k] == d[k - 2];
  }

  lemma DashedSlice(s: string, p: nat)
    requires DashedAt(s, p)
    ensures IsDateShaped(s[p..p + 10])
  {
    var d := s[p..p + 10];
    assert forall k :: 0 <= k < 10 ==> d[k] == s[p + k];
  }

  /** Rules 1 and 3 insert the hyphens and keep the eight digits in order. */
  lemma HyphenateRoundTrip(d: string)
    requires |d| == 8
    ensures |Hyphenate(d)| == 10 && Hyphenate(d)[4] == '-' && Hyphenate(d)[7] == '-'
    ensures Unhyphenate(Hyphenate(d)) == d
  {
    var h := Hyphenate(d);
    assert h[..4] == d[..4] && h[5..7] == d[4..6] && h[8..] == d[6..];
    assert d == d[..4] + d[4..6] + d[6..];
  }

  /** The leftmost match of rule 1 decides, whatever the other rules would say. */
  lemma CompactRuleWins(name: string, p: nat)
    requires MatchesAt(LeadingCompact, name, p)
    requires forall q: nat :: q < p ==> !MatchesAt(LeadingCompact, name, q)
    ensures ExtractDate(name) == Hyphenate(name[p..p + 8])
  {
    FindIsLeftmost(LeadingCompact, name, p);
  }

  /** A name that starts with eight digits is dated by rule 1. */
  lemma LeadingDigitsWin(name: string)
    requires DigitsAt(name, 0, 8)
    ensures ExtractDate(name) == Hyphenate(name[..8])
  {
    CompactRuleWins(name, 0);
    assert name[0..8] == name[..8];
  }

  /** Rule 2 applies when rule 1 matches nowhere; the date is copied verbatim. */
  lemma DashedRuleDecides(name: string, p: nat)
    requires forall q :: !MatchesAt(LeadingCompact, name, q)
    requires MatchesAt(LeadingDashed, name, p)
    requires forall q: nat :: q < p ==> !MatchesAt(LeadingDashed, name, q)
    ensures ExtractDate(name) == name[p..p + 10]
  {
    FindIsLeftmost(LeadingDashed, name, p);
  }

  /** Rule 3 applies when rules 1 and 2 match nowhere. */
  lemma CameraRuleDecides(name: string, p: nat)
    requires forall q :: !MatchesAt(LeadingCompact, name, q) && !MatchesAt(LeadingDashed, name, q)
    requires MatchesAt(CameraPrefix, name, p)
    requires forall q: nat :: q < p ==> !MatchesAt(CameraPrefix, name, q)
    ensures ExtractDate(name) == Hyphenate(name[p + 4..p + 12])
  {
    FindIsLeftmost(CameraPrefix, name, p);
  }

  /**
   * Rule 4 applies when rules 1 to 3 match nowhere: after the leftmost
   * "WhatsApp" that has a date later on its line, the last such date is
   * copied verbatim.
   */
  lemma WhatsAppRuleDecides(name: string, p: nat, q: nat)
    requires forall r :: !MatchesAt(LeadingCompact, name, r) && !MatchesAt(LeadingDashed, name, r)
    requires forall r :: !MatchesAt(CameraPrefix, name, r)
    requires p + 8 <= |name| && name[p..p + 8] == "WhatsApp"
    requires p + 8 <= q <= |name| && NoNewline(name, p + 8, q) && DashedAt(name, q)
    requires forall r :: q < r <= |name| && NoNewline(name, p + 8, r) ==> !DashedAt(name, r)
    requires forall r: nat :: r < p ==> !MatchesAt(WhatsApp, name, r)
    ensures ExtractDate(name) == name[q..q + 10]
  {
    var g := GreedyDate(name, p + 8);
    assert g == Some(q);
    FindIsLeftmost(WhatsApp, name, p);
  }

  /** The sentinel is returned exactly when no rule matches anywhere. */
  lemma UnknownIffNoRule(name: string)
    ensures ExtractDate(name) == UnknownDate <==> forall rule, q :: !MatchesAt(rule, name, q)
  {
    var f1 := Find(LeadingCompact, name, 0);
    var f2 := Find(LeadingDashed, name, 0);
    var f3 := Find(CameraPrefix, name, 0);
    var f4 := Find(WhatsApp, name, 0);
    if f1.None? && f2.None? && f3.None? && f4.None? {
      assert ExtractDate(name) == UnknownDate;
      forall rule, q ensures !MatchesAt(rule, name, q) {
        match rule
        case LeadingCompact =>
        case LeadingDashed =>
        case CameraPrefix =>
        case WhatsApp =>
      }
    } else {
      assert ExtractDate(name) != UnknownDate by {
        assert !IsDateShaped(UnknownDate);
      }
      if f1.Some? {
        assert MatchesAt(LeadingCompact, name, f1.value);
      } else if f2.Some? {
        assert MatchesAt(LeadingDashed, name, f2.value);
      } else if f3.Some? {
        assert MatchesAt(CameraPrefix, name, f3.value);
      } else {
        assert MatchesAt(WhatsApp, name, f4.value);
      }
    }
  }

  /** In a name without a newline, `^` matches only at the start. */
  lemma SingleLine(s: string)
    requires forall k | 0 <= k < |s| :: s[k] != '\n'
    ensures forall q: nat :: LineStart(s, q) ==> q == 0
  {
  }

  lemma FindIsLeftmost(rule: Rule, s: string, p: nat)
    requires MatchesAt(rule, s, p)
    requires forall q: nat :: q < p ==> !MatchesAt(rule, s, q)
    ensures Find(rule, s, 0) == Some(p)
  {
  }

  /** `unknown-date` sorts after every real date, because 'u' is above every digit. */
  lemma UnknownSortsLast(d: string)
    requires IsDateShaped(d)
    ensures d != UnknownDate && StrLe(d, UnknownDate)
  {
    assert IsDigit(d[0]);
    assert UnknownDate[0] == 'u';
  }

  /** The examples documented beside each rule of `extract_date`. */
  lemma ExampleCompact(s: string)
    requires s == "20160327_155351_HDR.jpg"
    ensures ExtractDate(s) == "2016-03-27"
  {
    CompactExampleDigits(s);
    LeadingDigitsWin(s);
    HyphenateExample(s[..8], "2016-03-27");
  }

  lemma CompactExampleDigits(s: string)
    requires s == "20160327_155351_HDR.jpg"
    ensures DigitsAt(s, 0, 8) && s[..8] == "20160327"
  {
  }

  lemma HyphenateExample(d: string, date: string)
    requires (d == "20160327" && date == "2016-03-27") || (d == "20220827" && date == "2022-08-27")
    ensures Hyphenate(d) == date
  {
  }

  lemma ExampleDashed(s: string)
    requires s == "2017-09-03 11.41.52-1.jpg"
    ensures ExtractDate(s) == "2017-09-03"
  {
    SingleLine(s);
    assert !IsDigit(s[4]);
    DashedRuleDecides(s, 0);
    assert s[0..10] == "2017-09-03";
  }

  lemma ExampleCamera(s: string)
    requires s == "IMG-20220827-WA0020.jpg"
    ensures ExtractDate(s) == "2022-08-27"
  {
    CameraExampleFacts(s);
    CameraRuleDecides(s, 0);
    HyphenateExample(s[4..12], "2022-08-27");
  }

  lemma CameraExampleFacts(s: string)
    requires s == "IMG-20220827-WA0020.jpg"
    ensures MatchesAt(CameraPrefix, s, 0) && s[4..12] == "20220827"
    ensures forall q :: !MatchesAt(LeadingCompact, s, q) && !MatchesAt(LeadingDashed, s, q)
  {
    CameraExampleMatch(s);
    CameraExampleNoLeading(s);
  }

  lemma CameraExampleMatch(s: string)
    requires s == "IMG-20220827-WA0020.jpg"
    ensures MatchesAt(CameraPrefix, s, 0) && s[4..12] == "20220827"
  {
    assert s[0..3] == "IMG";
    assert DigitsAt(s, 4, 8);
  }

  lemma CameraExampleNoLeading(s: string)
    requires s == "IMG-20220827-WA0020.jpg"
    ensures forall q :: !MatchesAt(LeadingCompact, s, q) && !MatchesAt(LeadingDashed, s, q)
  {
    SingleLine(s);
    assert !IsDigit(s[0]);
  }

  lemma ExampleWhatsApp(s: string, date: string)
    requires date == "2019-08-19" && s == "WhatsApp Image " + date + " at 14.21.49.jpeg"
    ensures ExtractDate(s) == "2019-08-19"
  {
    SingleLine(s);
    assert !IsDigit(s[0]);
    NoCameraInWhatsAppExample(s, date);
    LastDateInWhatsAppExample(s, date);
    assert s[0..8] == "WhatsApp";
    WhatsAppRuleDecides(s, 0, 15);
  }

  lemma NoCameraInWhatsAppExample(s: string, date: string)
    requires date == "2019-08-19" && s == "WhatsApp Image " + date + " at 14.21.49.jpeg"
    ensures forall q: nat :: !MatchesAt(CameraPrefix, s, q)
  {
    assert forall k | 0 <= k < |s| :: s[k] != 'V' && (s[k] == 'I' ==> k == 9);
    assert s[10] == 'm';
    forall q: nat ensures !MatchesAt(CameraPrefix, s, q) {
      if q + 12 <= |s| {
        assert s[q..q + 3][0] == s[q] && s[q..q + 3][1] == s[q + 1];
      }
    }
  }

  lemma LastDateInWhatsAppExample(s: string, date: string)
    requires date == "2019-08-19" && s == "WhatsApp Image " + date + " at 14.21.49.jpeg"
    ensures DashedAt(s, 15) && s[15..25] == date
    ensures forall r :: 15 < r <= |s| ==> !DashedAt(s, r)
  {
    assert forall k | 0 <= k < |s| :: s[k] == '-' ==> k == 19 || k == 22;
    assert s[15..25] == date;
  }

  lemma ExampleUnknown(s: string)
    requires s == "PC00023.png"
    ensures ExtractDate(s) == UnknownDate
  {
    UnknownExampleFacts(s);
    UnknownIffNoRule(s);
    forall rule, q: nat ensures !MatchesAt(rule, s, q) {
      match rule
      case LeadingCompact =>
      case LeadingDashed =>
      case CameraPrefix =>
      case WhatsApp =>
    }
  }

  lemma UnknownExampleFacts(s: string)
    requires s == "PC00023.png"
    ensures forall q: nat :: !MatchesAt(LeadingCompact, s, q) && !MatchesAt(LeadingDashed, s, q)
    ensures forall q: nat :: !MatchesAt(CameraPrefix, s, q) && !MatchesAt(WhatsApp, s, q)
  {
    SingleLine(s);
    assert !IsDigit(s[0]);
    assert forall k | 0 <= k < |s| :: s[k] != 'I' && s[k] != 'V' && s[k] != 'W';
    forall q: nat | q < |s| ensures !MatchesAt(CameraPrefix, s, q) && !MatchesAt(WhatsApp, s, q) {
      if q + 3 <= |s| {
        assert s[q..q + 3][0] == s[q];
      }
      if q + 8 <= |s| {
        assert s[q..q + 8][0] == s[q];
      }
    }
  }

  // ---------------------------------------------------------------------------
  // The file list: `.uniq`, `File.basename`, `sort_by`
  // ---------------------------------------------------------------------------

  /** `Array#uniq`: keeps the first occurrence of every element. */
  function Uniq(xs: seq<string>): (r: seq<string>)
    ensures NoDups(r)
    ensures forall x :: x in r <==> x in xs
    ensures |r| <= |xs|
  {
    if xs == [] then []
    else
      var u := Uniq(xs[..|xs| - 1]);
      var x := xs[|xs| - 1];
      assert forall y :: y in xs <==> y in xs[..|xs| - 1] || y == x by {
        assert xs == xs[..|xs| - 1] + [x];
      }
      if x in u then u else u + [x]
  }

  /** A list that already has no duplicates is left as it is. */
  lemma {:induction false} UniqOfDistinct(xs: seq<string>)
    requires NoDups(xs)
    ensures Uniq(xs) == xs
  {
    if xs != [] {
      var init := xs[..|xs| - 1];
      UniqOfDistinct(init);
      assert xs[|xs| - 1] !in init;
      assert xs == init + [xs[|xs| - 1]];
    }
  }

  /**
   * `uniq` keeps first occurrences in input order: removing duplicates from
   * a longer list only adds names after those of its prefix.
   */
  lemma {:induction false} UniqPrefix(xs: seq<string>, ys: seq<string>)
    ensures Uniq(xs) <= Uniq(xs + ys)
    decreases |ys|
  {
    if ys == [] {
      assert xs + ys == xs;
    } else {
      var init := ys[..|ys| - 1];
      assert (xs + ys)[..|xs + ys| - 1] == xs + init;
      UniqPrefix(xs, init);
    }
  }

  /** `File.basename(path)` for a path that does not end in "/": the part after the last "/". */
  function Basename(path: string): (name: string)
    ensures |name| <= |path| && name == path[|path| - |name|..]
    ensures '/' !in name
    ensures |name| == |path| || path[|path| - |name| - 1] == '/'
  {
    if path == [] || path[|path| - 1] == '/' then []
    else
      var init := path[..|path| - 1];
      var b := Basename(init);
      assert init[|init| - |b|..] + [path[|path| - 1]] == path[|path| - |b| - 1..];
      b + [path[|path| - 1]]
  }

  /** The base name of `dir/name` is `name`. */
  lemma {:induction false} BasenameOfJoin(dir: string, name: string)
    requires '/' !in name
    ensures Basename(dir + "/" + name) == name
  {
    var path := dir + "/" + name;
    if name != [] {
      var init := name[..|name| - 1];
      assert path[..|path| - 1] == dir + "/" + init;
      BasenameOfJoin(dir, init);
      assert name == init + [name[|name| - 1]];
    }
  }

  /** One element of `files_with_dates`: `[date, file, filename]`. */
  datatype Entry = Entry(date: string, file: string, filename: string)

  function EntryDate(e: Entry): string
  {
    e.date
  }

  /** The `files.map` block: each path with its base name and extracted date. */
  function Tag(files: seq<string>): (es: seq<Entry>)
    ensures |es| == |files|
    ensures forall j :: 0 <= j < |es| ==> es[j].file == files[j]
    ensures forall j :: 0 <= j < |es| ==> WellFormed(es[j])
  {
    seq(|files|, j requires 0 <= j < |files| => TagOne(files[j]))
  }

  /** The entry of one path. */
  function TagOne(file: string): (e: Entry)
    ensures e.file == file && WellFormed(e)
  {
    var name := Basename(file);
    Entry(ExtractDate(name), file, name)
  }

  /** An entry's file name is the base name of its path and its date comes from that name. */
  predicate WellFormed(e: Entry)
  {
    e.filename == Basename(e.file) && e.date == ExtractDate(e.filename)
  }

  function EntryFile(e: Entry): string
  {
    e.file
  }

  /** The paths of the entries, in order. */
  function Files(es: seq<Entry>): seq<string>
  {
    Project(es, EntryFile)
  }

  function Dates(es: seq<Entry>): (ds: seq<string>)
    ensures |ds| == |es| && forall j :: 0 <= j < |es| ==> ds[j] == es[j].date
  {
    seq(|es|, j requires 0 <= j < |es| => es[j].date)
  }

  lemma FilesOfTag(files: seq<string>)
    ensures Files(Tag(files)) == files
  {
    ProjectIndex(Tag(files), EntryFile);
  }

  /** `files_with_dates`: the tagged files ordered by date. */
  function SortByDate(es: seq<Entry>): (sorted: seq<Entry>)
    ensures SortedBy(sorted, EntryDate)
    ensures multiset(sorted) == multiset(es) && |sorted| == |es|
  {
    SortBy(es, EntryDate)
  }

  // ---------------------------------------------------------------------------
  // Sequence numbers
  // ---------------------------------------------------------------------------

  /** How many times `d` occurs in `ds`. */
  function Occurrences(ds: seq<string>, d: string): nat
  {
    if ds == [] then 0
    else Occurrences(ds[..|ds| - 1], d) + (if ds[|ds| - 1] == d then 1 else 0)
  }

  /** How many of the first `j + 1` dates equal the `j`-th: its sequence number. */
  function Rank(ds: seq<string>, j: nat): nat
    requires j < |ds|
  {
    Occurrences(ds[..j + 1], ds[j])
  }

  /** `"#{date}-#{seq}.webp"` with `seq = format('%03d', n)`. */
  function OutputName(date: string, n: nat): string
  {
    date + "-" + Pad3(n) + ".webp"
  }

  /** `"#{OUTPUT_DIR}/#{output_name}"`. */
  function OutputPath(name: string): string
  {
    OutputDir + "/" + name
  }

  /** What one iteration of the loop decides for a file: the source and target of its `magick` call. */
  datatype Conversion = Conversion(entry: Entry, outputName: string, outputPath: string)

  /** The conversion of the file that gets sequence number `n`. */
  function Convert(e: Entry, n: nat): Conversion
  {
    var name := OutputName(e.date, n);
    Conversion(e, name, OutputPath(name))
  }

  function EntriesOf(cs: seq<Conversion>): (es: seq<Entry>)
    ensures |es| == |cs| && forall j :: 0 <= j < |cs| ==> es[j] == cs[j].entry
  {
    seq(|cs|, j requires 0 <= j < |cs| => cs[j].entry)
  }

  /**
   * The `each_with_index` loop over `files_with_dates`: `date_counts` is the
   * `Hash.new(0)` counter; the method returns what every iteration passes
   * to `magick` and the counter as it is after the loop.
   */
  method NumberFiles(sorted: seq<Entry>) returns (conversions: seq<Conversion>, dateCounts: map<string, nat>)
    ensures |conversions| == |sorted|
    ensures forall j :: 0 <= j < |sorted| ==> conversions[j] == Convert(sorted[j], Rank(Dates(sorted), j))
    ensures forall d :: d in dateCounts <==> d in Dates(sorted)
    ensures forall d :: d in dateCounts ==> dateCounts[d] == Occurrences(Dates(sorted), d)
  {
    var ds := Dates(sorted);
    conversions := [];
    dateCounts := map[];
    var i := 0;
    while i < |sorted|
      invariant Progress(sorted, ds, conversions, dateCounts, i)
    {
      var date := sorted[i].date;
      var n := (if date in dateCounts then dateCounts[date] else 0) + 1;
      ProgressStep(sorted, ds, conversions, dateCounts, i, n);
      dateCounts := dateCounts[date := n];
      conversions := conversions + [Convert(sorted[i], n)];
      i := i + 1;
    }
    CountedAll(ds, dateCounts);
  }

  /** The state after `i` iterations of the `each_with_index` loop. */
  ghost predicate Progress(sorted: seq<Entry>, ds: seq<string>, cs: seq<Conversion>, counts: map<string, nat>, i: nat)
  {
    ds == Dates(sorted) && i <= |sorted| && |cs| == i && Numbered(sorted, cs) && Counted(ds, counts, i)
  }

  lemma ProgressStep(sorted: seq<Entry>, ds: seq<string>, cs: seq<Conversion>, counts: map<string, nat>, i: nat, n: nat)
    requires Progress(sorted, ds, cs, counts, i) && i < |sorted|
    requires n == (if sorted[i].date in counts then counts[sorted[i].date] else 0) + 1
    ensures Progress(sorted, ds, cs + [Convert(sorted[i], n)], counts[sorted[i].date := n], i + 1)
  {
    CountsStep(ds, i, counts, n, counts[ds[i] := n]);
    NumberedStep(sorted, cs, Convert(sorted[i], n));
  }

  /** The conversions so far are those of the first files, each with its rank. */
  predicate Numbered(sorted: seq<Entry>, cs: seq<Conversion>)
  {
    |cs| <= |sorted| && forall j :: 0 <= j < |cs| ==> cs[j] == Convert(sorted[j], Rank(Dates(sorted), j))
  }

  /** `counts` holds how often each of the first `i` dates occurs, and no other key. */
  ghost predicate Counted(ds: seq<string>, counts: map<string, nat>, i: nat)
    requires i <= |ds|
  {
    (forall d :: d in counts <==> d in ds[..i])
    && (forall d :: d in counts ==> counts[d] == Occurrences(ds[..i], d))
  }

  lemma NumberedStep(sorted: seq<Entry>, cs: seq<Conversion>, c: Conversion)
    requires Numbered(sorted, cs) && |cs| < |sorted|
    requires c == Convert(sorted[|cs|], Rank(Dates(sorted), |cs|))
    ensures Numbered(sorted, cs + [c])
  {
    var next := cs + [c];
    forall j | 0 <= j < |next| ensures next[j] == Convert(sorted[j], Rank(Dates(sorted), j)) {
      if j < |cs| { assert next[j] == cs[j]; }
    }
  }

  /** One iteration's `date_counts[date] += 1` on a counter that defaults to 0. */
  lemma CountsStep(ds: seq<string>, i: nat, counts: map<string, nat>, n: nat, next: map<string, nat>)
    requires i < |ds| && Counted(ds, counts, i)
    requires n == (if ds[i] in counts then counts[ds[i]] else 0) + 1 && next == counts[ds[i] := n]
    ensures n == Rank(ds, i)
    ensures Counted(ds, next, i + 1)
  {
    CountStep(ds, i);
    OccurrencesAbsent(ds[..i], ds[i]);
  }

  lemma CountedAll(ds: seq<string>, counts: map<string, nat>)
    requires Counted(ds, counts, |ds|)
    ensures forall d :: d in counts <==> d in ds
    ensures forall d :: d in counts ==> counts[d] == Occurrences(ds, d)
  {
    assert ds[..|ds|] == ds;
  }

  /** A date that does not occur has count zero, and one that occurs has a positive count. */
  lemma {:induction false} OccurrencesAbsent(ds: seq<string>, d: string)
    ensures d !in ds <==> Occurrences(ds, d) == 0
  {
    if ds != [] {
      var init := ds[..|ds| - 1];
      OccurrencesAbsent(init, d);
      assert ds == init + [ds[|ds| - 1]];
    }
  }

  /** One more date: its count goes up by one and it is the next number for that date. */
  lemma CountStep(ds: seq<string>, i: nat)
    requires i < |ds|
    ensures forall d :: Occurrences(ds[..i + 1], d) == Occurrences(ds[..i], d) + (if ds[i] == d then 1 else 0)
    ensures forall d :: d in ds[..i + 1] <==> d in ds[..i] || d == ds[i]
    ensures Rank(ds, i) == Occurrences(ds[..i], ds[i]) + 1
  {
    assert ds[..i + 1][..i] == ds[..i];
    assert ds[..i + 1] == ds[..i] + [ds[i]];
  }

  // ---------------------------------------------------------------------------
  // What the numbering guarantees
  // ---------------------------------------------------------------------------

  /** A prefix holds no more occurrences than the whole. */
  lemma {:induction false} OccurrencesPrefix(ds: seq<string>, k: nat, d: string)
    requires k <= |ds|
    ensures Occurrences(ds[..k], d) <= Occurrences(ds, d)
    decreases |ds|
  {
    if k < |ds| {
      var init := ds[..|ds| - 1];
      assert init[..k] == ds[..k];
      OccurrencesPrefix(init, k, d);
    } else {
      assert ds[..k] == ds;
    }
  }

  /** Every sequence number lies between 1 and the number of files of that date. */
  lemma RankBounds(ds: seq<string>, j: nat)
    requires j < |ds|
    ensures 1 <= Rank(ds, j) <= Occurrences(ds, ds[j])
  {
    assert ds[..j + 1][..j] == ds[..j];
    OccurrencesPrefix(ds, j + 1, ds[j]);
  }

  /** A later file of the same date gets a larger number. */
  lemma RankIncreasing(ds: seq<string>, i: nat, j: nat)
    requires i < j < |ds| && ds[i] == ds[j]
    ensures Rank(ds, i) < Rank(ds, j)
  {
    var d := ds[j];
    assert ds[..j + 1][..j] == ds[..j];
    assert ds[..j][..i + 1] == ds[..i + 1];
    OccurrencesPrefix(ds[..j], i + 1, d);
  }

  /** The numbers of one date have no gaps: each of 1 .. count is given to some file of that date. */
  lemma {:induction false} RanksCoverCount(ds: seq<string>, d: string, m: nat)
    requires 1 <= m <= Occurrences(ds, d)
    ensures exists j :: 0 <= j < |ds| && ds[j] == d && Rank(ds, j) == m
  {
    var last := |ds| - 1;
    var init := ds[..last];
    if ds[last] == d && m == Occurrences(ds, d) {
      assert ds[..last + 1] == ds;
      assert Rank(ds, last) == m;
    } else {
      RanksCoverCount(init, d, m);
      var j :| 0 <= j < |init| && init[j] == d && Rank(init, j) == m;
      assert init[..j + 1] == ds[..j + 1];
      assert Rank(ds, j) == m;
    }
  }

  /** A date `extract_date` can return. */
  predicate IsExtracted(d: string)
  {
    d == UnknownDate || IsDateShaped(d)
  }

  /** An output name determines its date and its sequence number. */
  lemma OutputNameInjective(d1: string, n1: nat, d2: string, n2: nat)
    requires IsExtracted(d1) && IsExtracted(d2)
    requires OutputName(d1, n1) == OutputName(d2, n2)
    ensures d1 == d2 && n1 == n2
  {
    var o := OutputName(d1, n1);
    assert o[0] == d1[0] && o[0] == d2[0];
    assert UnknownDate[0] == 'u';
    assert |d1| == |d2| by {
      if d1 == UnknownDate || d2 == UnknownDate {
        assert d1 == UnknownDate && d2 == UnknownDate;
      }
    }
    assert o[..|d1|] == d1 && o[..|d2|] == d2;
    var p1, p2 := Pad3(n1), Pad3(n2);
    assert o == d1 + "-" + p1 + ".webp" == d2 + "-" + p2 + ".webp";
    assert o[|d1| + 1..|o| - 5] == p1;
    assert o[|d2| + 1..|o| - 5] == p2;
  }

  /** Within one run, the output names are pairwise distinct. */
  lemma OutputNamesDistinct(es: seq<Entry>, i: nat, j: nat)
    requires forall k :: 0 <= k < |es| ==> IsExtracted(es[k].date)
    requires i < j < |es|
    ensures Convert(es[i], Rank(Dates(es), i)).outputName != Convert(es[j], Rank(Dates(es), j)).outputName
  {
    var ds := Dates(es);
    if OutputName(ds[i], Rank(ds, i)) == OutputName(ds[j], Rank(ds, j)) {
      OutputNameInjective(ds[i], Rank(ds, i), ds[j], Rank(ds, j));
      RankIncreasing(ds, i, j);
    }
  }

  lemma AllOutputNamesDistinct(es: seq<Entry>, cs: seq<Conversion>)
    requires forall k :: 0 <= k < |es| ==> WellFormed(es[k])
    requires |cs| == |es| && forall j :: 0 <= j < |es| ==> cs[j] == Convert(es[j], Rank(Dates(es), j))
    ensures forall i, j :: 0 <= i < j < |cs| ==> cs[i].outputName != cs[j].outputName
  {
    forall i, j | 0 <= i < j < |cs| ensures cs[i].outputName != cs[j].outputName {
      OutputNamesDistinct(es, i, j);
    }
  }

  /** The sorted list holds each discovered path once, with its own name and date. */
  lemma SortedFiles(files: seq<string>, sorted: seq<Entry>)
    requires NoDups(files) && sorted == SortByDate(Tag(files))
    ensures multiset(Files(sorted)) == multiset(files)
    ensures NoDups(Files(sorted))
    ensures forall k :: 0 <= k < |sorted| ==> WellFormed(sorted[k])
  {
    FilesOfTag(files);
    ProjectPermutation(sorted, Tag(files), EntryFile);
    PermutationNoDups(files, Files(sorted));
    PermutationWellFormed(Tag(files), sorted);
  }

  lemma PermutationWellFormed(es: seq<Entry>, fs: seq<Entry>)
    requires forall k :: 0 <= k < |es| ==> WellFormed(es[k])
    requires multiset(fs) == multiset(es)
    ensures forall k :: 0 <= k < |fs| ==> WellFormed(fs[k])
  {
    forall k | 0 <= k < |fs| ensures WellFormed(fs[k]) {
      assert fs[k] in multiset(es);
    }
  }

  /** The counts of the distinct dates, added up in the order of `keys`. */
  function SumCounts(keys: seq<string>, ds: seq<string>): nat
  {
    if keys == [] then 0 else SumCounts(keys[..|keys| - 1], ds) + Occurrences(ds, keys[|keys| - 1])
  }

  /** The counts over all distinct dates add up to the number of files. */
  lemma {:induction false} TotalCount(keys: seq<string>, ds: seq<string>)
    requires NoDups(keys) && forall d :: d in ds ==> d in keys
    ensures SumCounts(keys, ds) == |ds|
  {
    if ds != [] {
      var init := ds[..|ds| - 1];
      var x := ds[|ds| - 1];
      assert ds == init + [x];
      TotalCount(keys, init);
      SumCountsSnoc(keys, init, x);
      OccursOnce(keys, x);
    } else {
      SumCountsEmpty(keys);
    }
  }

  /** `date_counts` summed over the distinct dates is `total`. */
  lemma CountsSumToTotal(ds: seq<string>)
    ensures SumCounts(Uniq(ds), ds) == |ds|
  {
    TotalCount(Uniq(ds), ds);
  }

  /** The values `counts` holds for `keys`, added up in order; a missing key adds nothing. */
  function SumValues(keys: seq<string>, counts: map<string, nat>): nat
  {
    if keys == [] then 0
    else SumValues(keys[..|keys| - 1], counts) + (var k := keys[|keys| - 1]; if k in counts then counts[k] else 0)
  }

  /**
   * A counter that maps every date of `ds`, and nothing else, to its number
   * of occurrences holds values that add up to `|ds|` over the distinct dates.
   */
  lemma CounterSumsToTotal(ds: seq<string>, counts: map<string, nat>)
    requires forall d :: d in counts <==> d in ds
    requires forall d :: d in counts ==> counts[d] == Occurrences(ds, d)
    ensures SumValues(Uniq(ds), counts) == |ds|
  {
    SumValuesAreCounts(Uniq(ds), ds, counts);
    TotalCount(Uniq(ds), ds);
  }

  lemma {:induction false} SumValuesAreCounts(keys: seq<string>, ds: seq<string>, counts: map<string, nat>)
    requires forall d :: d in counts <==> d in ds
    requires forall d :: d in counts ==> counts[d] == Occurrences(ds, d)
    ensures SumValues(keys, counts) == SumCounts(keys, ds)
  {
    if keys != [] {
      SumValuesAreCounts(keys[..|keys| - 1], ds, counts);
      var k := keys[|keys| - 1];
      if k !in counts {
        OccurrencesAbsent(ds, k);
      }
    }
  }

  lemma {:induction false} SumCountsEmpty(keys: seq<string>)
    ensures SumCounts(keys, []) == 0
  {
    if keys != [] { SumCountsEmpty(keys[..|keys| - 1]); }
  }

  lemma {:induction false} SumCountsSnoc(keys: seq<string>, ds: seq<string>, x: string)
    ensures SumCounts(keys, ds + [x]) == SumCounts(keys, ds) + Occurrences(keys, x)
  {
    if keys != [] {
      SumCountsSnoc(keys[..|keys| - 1], ds, x);
      assert (ds + [x])[..|ds|] == ds;
    }
  }

  lemma {:induction false} OccursOnce(keys: seq<string>, x: string)
    requires NoDups(keys) && x in keys
    ensures Occurrences(keys, x) == 1
  {
    var init := keys[..|keys| - 1];
    assert keys == init + [keys[|keys| - 1]];
    if keys[|keys| - 1] == x {
      OccurrencesAbsent(init, x);
    } else {
      OccursOnce(init, x);
    }
  }

  // ---------------------------------------------------------------------------
  // The script
  // ---------------------------------------------------------------------------

  /**
   * The script from the glob onwards: `globbed` is what `Dir.glob` returned.
   * It returns the conversions in the order they run and `date_counts` after
   * the loop; nothing is converted when no image was found.
   */
  method ProcessImages(globbed: seq<string>) returns (conversions: seq<Conversion>, dateCounts: map<string, nat>)
    ensures globbed == [] ==> conversions == [] && dateCounts == map[]
    ensures multiset(Files(EntriesOf(conversions))) == multiset(Uniq(globbed))
    ensures NoDups(Files(EntriesOf(conversions)))
    ensures forall j :: 0 <= j < |conversions| ==> WellFormed(conversions[j].entry)
    ensures SortedBy(EntriesOf(conversions), EntryDate)
    ensures forall j :: 0 <= j < |conversions| ==>
              conversions[j] == Convert(conversions[j].entry, Rank(Dates(EntriesOf(conversions)), j))
    ensures forall i, j :: 0 <= i < j < |conversions| ==> conversions[i].outputName != conversions[j].outputName
    ensures forall d :: d in dateCounts <==> d in Dates(EntriesOf(conversions))
    ensures forall d :: d in dateCounts ==> dateCounts[d] == Occurrences(Dates(EntriesOf(conversions)), d)
    ensures SumValues(Uniq(Dates(EntriesOf(conversions))), dateCounts) == |conversions|
  {
    var files := Uniq(globbed);
    if files == [] {
      return [], map[];
    }
    var sorted := SortByDate(Tag(files));
    SortedFiles(files, sorted);
    conversions, dateCounts := NumberFiles(sorted);
    assert EntriesOf(conversions) == sorted;
    AllOutputNamesDistinct(sorted, conversions);
    CounterSumsToTotal(Dates(sorted), dateCounts);
  }
}
