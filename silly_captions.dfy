/**
 * The caption "silly-fying" of scripts/generate-captions.py: `make_silly`,
 * which lower-cases a caption, runs an ordered list of substring
 * rewrites over it, capitalises it, may insert a parenthetical aside and
 * wraps it in a prefix and a suffix; and the folder walk of
 * `process_folder`. The random draws and what the captioning model
 * produced for each image are inputs.
 */
module SillyCaptions {

  import opened Maybe
  import opened Text
  import opened Ordering
  import opened CaptionFiles

  /** The entries of `PREFIXES`, by position. */
  const PrefixCount := 20

  function Prefix(i: nat): string
    requires i < PrefixCount
  {
    match i
    case 0 => "Behold:"
    case 1 => "Witness:"
    case 2 => "Rare footage of"
    case 3 => "Scientists baffled by"
    case 4 => "Local news reports"
    case 5 => "Breaking:"
    case 6 => "Experts confirm this is"
    case 7 => "Leaked image shows"
    case 8 => "Classified photo of"
    case 9 => "Historians debate"
    case 10 => "Area hashers spotted"
    case 11 => "This just in:"
    case 12 => "EXCLUSIVE:"
    case 13 => "Police are investigating"
    case 14 => "Witnesses report"
    case 15 => "Legend has it:"
    case 16 => "Unconfirmed reports of"
    case 17 => "Allegedly:"
    case 18 => "Sources say this is"
    case _ => "Critics are calling this"
  }

  /** The entries of `SUFFIXES`, by position. */
  const SuffixCount := 26

  function Suffix(i: nat): string
    requires i < SuffixCount
  {
    match i
    case 0 => "This is completely normal behavior."
    case 1 => "No hashers were harmed in the making of this photo."
    case 2 => "The beer was definitely earned."
    case 3 => "Moments before disaster."
    case 4 => "Moments after disaster."
    case 5 => "The hangover was legendary."
    case 6 => "Management takes no responsibility."
    case 7 => "This explains a lot, actually."
    case 8 => "And they wonder why we drink."
    case 9 => "Typical Tuesday, honestly."
    case 10 => "The circle was... eventful."
    case 11 => "On-on to questionable decisions!"
    case 12 => "Character building in progress."
    case 13 => "Hydration station located."
    case 14 => "This is what peak performance looks like."
    case 15 => "They knew what they signed up for. (They didn't.)"
    case 16 => "The hares were never seen again."
    case 17 => "Down-down pending."
    case 18 => "Hash name earned."
    case 19 => "Cardio (allegedly)."
    case 20 => "Professional athletes at work."
    case 21 => "The RA has questions."
    case 22 => "Beer check confirmed."
    case 23 => "Chalk marks were involved."
    case 24 => "Someone lost a shoe."
    case _ => "The ice was deserved."
  }

  /** The rewrites `make_silly` applies, in the order it applies them. */
  const Exaggerations: seq<(string, string)> := [
    ("person", "extremely dedicated athlete"),
    ("people", "a herd of questionable decision-makers"),
    ("man", "brave soul"),
    ("woman", "absolute legend"),
    ("group", "chaotic assembly"),
    ("standing", "barely standing"),
    ("walking", "attempting forward motion"),
    ("running", "fleeing from responsibility"),
    ("sitting", "recovering from life choices"),
    ("holding", "desperately clutching"),
    ("beer", "essential hydration"),
    ("drink", "survival juice"),
    ("water", "beer's disappointing cousin"),
    ("shirt", "sweat-absorption device"),
    ("outside", "in the wild"),
    ("grass", "nature's carpet"),
    ("tree", "vertical wood thing"),
    ("road", "designated suffering path"),
    ("mud", "complimentary exfoliation"),
    ("dirt", "earth seasoning"),
    ("smiling", "grimacing through the pain"),
    ("happy", "delirious"),
    ("tired", "experiencing peak performance"),
    ("wet", "optimally hydrated externally"),
    ("crowd", "mob of enablers"),
    ("friend", "co-conspirator"),
    ("looking", "squinting suspiciously"),
    ("large", "impressively chaotic"),
    ("small", "concentrated chaos"),
    ("wearing", "barely containing"),
    ("red", "blood-pressure-indicating"),
    ("white", "suspiciously clean"),
    ("table", "horizontal beer holder"),
    ("bottle", "vessel of truth"),
    ("cup", "portable hydration unit")
  ]

  /** The entries of `ASIDES`, by position. */
  const AsideCount := 15

  function Aside(i: nat): string
    requires i < AsideCount
  {
    match i
    case 0 => "(allegedly)"
    case 1 => "(citation needed)"
    case 2 => "(no regrets)"
    case 3 => "(send help)"
    case 4 => "(hydration pending)"
    case 5 => "(beer required)"
    case 6 => "(this is fine)"
    case 7 => "(mistakes were made)"
    case 8 => "(on-on)"
    case 9 => "(the hares did this)"
    case 10 => "(blame the RA)"
    case 11 => "(worth it)"
    case 12 => "(probably)"
    case 13 => "(we think)"
    case _ => "(don't ask)"
  }

  /** What `process_folder` stores for an image whose captioning raised. */
  const FolderFallback := "Behold: A photo that defies description. The camera was probably drunk too."

  // ---------------------------------------------------------------------------
  // str.replace and the rewrite list
  // ---------------------------------------------------------------------------

  /** `pat` occurs in `s` starting at position `k`. */
  predicate OccursAt(s: string, pat: string, k: int)
  {
    0 <= k <= |s| - |pat| && s[k..k + |pat|] == pat
  }

  /** `pat` occurs somewhere in `s`. */
  predicate Contains(s: string, pat: string)
  {
    exists k :: 0 <= k <= |s| - |pat| && OccursAt(s, pat, k)
  }

  /**
   * `s.replace(pat, rep)`: scanning left to right, every occurrence of
   * `pat` that does not overlap an earlier replaced one becomes `rep`. An
   * empty `pat` matches before every character and at the end.
   */
  function Replace(s: string, pat: string, rep: string): string
    decreases |s|
  {
    if pat == [] then
      (if s == [] then rep else rep + [s[0]] + Replace(s[1..], pat, rep))
    else if |s| < |pat| then s
    else if s[..|pat|] == pat then rep + Replace(s[|pat|..], pat, rep)
    else [s[0]] + Replace(s[1..], pat, rep)
  }

  /** A rewrite whose pattern does not occur changes nothing. */
  lemma {:induction false} ReplaceAbsent(s: string, pat: string, rep: string)
    requires pat != [] && !Contains(s, pat)
    ensures Replace(s, pat, rep) == s
    decreases |s|
  {
    if |s| >= |pat| {
      assert s[0..|pat|] == s[..|pat|];
      assert !OccursAt(s, pat, 0);
      assert !Contains(s[1..], pat) by {
        if k :| 0 <= k && OccursAt(s[1..], pat, k) {
          assert s[1..][k..k + |pat|] == s[k + 1..k + 1 + |pat|];
          assert OccursAt(s, pat, k + 1);
        }
      }
      ReplaceAbsent(s[1..], pat, rep);
      assert s == [s[0]] + s[1..];
    }
  }

  /**
   * Replacing every `pat` by a `rep` that cannot start or continue an
   * occurrence (the first character of `pat` is not in `rep`, and the first
   * character of `rep` is not in `pat`) leaves no occurrence of `pat`.
   */
  lemma {:induction false} ReplaceRemoves(s: string, pat: string, rep: string)
    requires pat != [] && rep != []
    requires pat[0] !in rep && rep[0] !in pat
    ensures !Contains(Replace(s, pat, rep), pat)
    decreases |s|
  {
    if |s| < |pat| {
      assert Replace(s, pat, rep) == s;
    } else if s[..|pat|] == pat {
      var t := s[|pat|..];
      ReplaceRemoves(t, pat, rep);
      assert Replace(s, pat, rep) == rep + Replace(t, pat, rep);
      NoneAcrossRep(rep, Replace(t, pat, rep), pat);
    } else {
      var t := s[1..];
      ReplaceRemoves(t, pat, rep);
      assert Replace(s, pat, rep) == [s[0]] + Replace(t, pat, rep);
      NoneAcrossCopy(s, pat, rep);
    }
  }

  /** No occurrence can start inside `rep` when it lacks the first character of `pat`. */
  lemma NoneAcrossRep(rep: string, rest: string, pat: string)
    requires pat != [] && pat[0] !in rep && !Contains(rest, pat)
    ensures !Contains(rep + rest, pat)
  {
    var r := rep + rest;
    if k :| 0 <= k <= |r| - |pat| && OccursAt(r, pat, k) {
      if k < |rep| {
        assert false;
      } else {
        assert r[k..k + |pat|] == rest[k - |rep|..k - |rep| + |pat|];
        assert OccursAt(rest, pat, k - |rep|);
        assert false;
      }
    }
  }

  /** A copied first character cannot start an occurrence that did not start in the input. */
  lemma NoneAcrossCopy(s: string, pat: string, rep: string)
    requires pat != [] && rep != [] && rep[0] !in pat
    requires |s| >= |pat| && s[..|pat|] != pat
    requires !Contains(Replace(s[1..], pat, rep), pat)
    ensures !Contains([s[0]] + Replace(s[1..], pat, rep), pat)
  {
    var t := s[1..];
    var rt := Replace(t, pat, rep);
    var r := [s[0]] + rt;
    forall k | 0 <= k <= |r| - |pat| ensures !OccursAt(r, pat, k) {
      if k == 0 {
        NoneAtCopy(s, pat, rep);
      } else {
        NoneAfterCopy(s[0], rt, pat, k);
      }
    }
  }

  lemma NoneAtCopy(s: string, pat: string, rep: string)
    requires pat != [] && rep != [] && rep[0] !in pat
    requires |s| >= |pat| && s[..|pat|] != pat
    ensures !OccursAt([s[0]] + Replace(s[1..], pat, rep), pat, 0)
  {
    var t := s[1..];
    var rt := Replace(t, pat, rep);
    var r := [s[0]] + rt;
    if |pat| <= |r| && OccursAt(r, pat, 0) {
      var m := |pat| - 1;
      assert forall i :: 0 <= i < m ==> rt[i] == pat[i + 1] by {
        forall i | 0 <= i < m ensures rt[i] == pat[i + 1] {
          assert r[..|pat|][i + 1] == rt[i];
        }
      }
      CopiedPrefix(t, pat, rep, m);
      assert false;
    }
  }

  lemma NoneAfterCopy(c: char, rt: string, pat: string, k: nat)
    requires !Contains(rt, pat) && 0 < k <= |rt| + 1 - |pat|
    ensures !OccursAt([c] + rt, pat, k)
  {
    var r := [c] + rt;
    if OccursAt(r, pat, k) {
      assert r[k..k + |pat|] == rt[k - 1..k - 1 + |pat|];
      assert OccursAt(rt, pat, k - 1);
      assert false;
    }
  }

  /** A prefix of the output that avoids the first character of `rep` was copied from the input. */
  lemma {:induction false} CopiedPrefix(s: string, pat: string, rep: string, m: nat)
    requires pat != [] && rep != []
    requires m <= |Replace(s, pat, rep)|
    requires forall i :: 0 <= i < m ==> Replace(s, pat, rep)[i] != rep[0]
    ensures m <= |s| && Replace(s, pat, rep)[..m] == s[..m]
    decreases |s|
  {
    var r := Replace(s, pat, rep);
    if m > 0 && |s| >= |pat| {
      if s[..|pat|] == pat {
        ReplaceHead(s, pat, rep);
        assert false;
      } else {
        var rt := Replace(s[1..], pat, rep);
        assert r == [s[0]] + rt;
        assert forall i :: 0 <= i < m - 1 ==> rt[i] == r[i + 1];
        CopiedPrefix(s[1..], pat, rep, m - 1);
        assert r[..m] == [s[0]] + rt[..m - 1];
        assert s[..m] == [s[0]] + s[1..][..m - 1];
      }
    }
  }

  /** Where `pat` starts the input, the output starts with `rep`. */
  lemma ReplaceHead(s: string, pat: string, rep: string)
    requires pat != [] && rep != [] && |s| >= |pat| && s[..|pat|] == pat
    ensures Replace(s, pat, rep)[0] == rep[0]
  {
    assert Replace(s, pat, rep) == rep + Replace(s[|pat|..], pat, rep);
  }

  /** Every rewrite of `rules`, first to last, each applied to the output of the one before. */
  function ApplyRules(s: string, rules: seq<(string, string)>): string
  {
    if rules == [] then s
    else
      var last := rules[|rules| - 1];
      Replace(ApplyRules(s, rules[..|rules| - 1]), last.0, last.1)
  }

  /** Rewrites with non-empty patterns leave the empty string empty. */
  lemma {:induction false} ApplyRulesEmpty(rules: seq<(string, string)>)
    requires forall i :: 0 <= i < |rules| ==> rules[i].0 != []
    ensures ApplyRules("", rules) == ""
  {
    if rules != [] {
      ApplyRulesEmpty(rules[..|rules| - 1]);
    }
  }

  /** Applying one more rule is applying it to the output of the ones before. */
  lemma ApplyRulesStep(s: string, rules: seq<(string, string)>, i: nat)
    requires i < |rules|
    ensures ApplyRules(s, rules[..i + 1]) == Replace(ApplyRules(s, rules[..i]), rules[i].0, rules[i].1)
  {
    assert rules[..i + 1][..i] == rules[..i];
  }

  lemma ManRule()
    ensures Exaggerations[2] == ("man", "brave soul") && Exaggerations[3] == ("woman", "absolute legend")
  {
  }

  /**
   * The "woman" rule never fires: the "man" rule before it has already
   * rewritten the "man" inside every "woman", so the first four rules do
   * exactly what the first three do.
   */
  lemma WomanRuleInert(s: string)
    ensures ApplyRules(s, Exaggerations[..4]) == ApplyRules(s, Exaggerations[..3])
  {
    ManRule();
    ApplyRulesStep(s, Exaggerations, 2);
    ApplyRulesStep(s, Exaggerations, 3);
    var beforeMan := ApplyRules(s, Exaggerations[..2]);
    ManRemoves(beforeMan, "man", "brave soul");
    NoManNoWoman(ApplyRules(s, Exaggerations[..3]), "man", "woman");
    ReplaceAbsent(ApplyRules(s, Exaggerations[..3]), "woman", "absolute legend");
  }

  lemma ManRemoves(s: string, pat: string, rep: string)
    requires pat == "man" && rep == "brave soul"
    ensures !Contains(Replace(s, pat, rep), pat)
  {
    assert pat[0] == 'm' && rep[0] == 'b';
    assert forall i :: 0 <= i < |rep| ==> rep[i] != 'm';
    ReplaceRemoves(s, pat, rep);
  }

  lemma NoManNoWoman(s: string, man: string, woman: string)
    requires man == "man" && woman == "woman"
    requires !Contains(s, man)
    ensures !Contains(s, woman)
  {
    if k :| OccursAt(s, woman, k) {
      assert s[k + 2..k + 2 + |man|] == s[k..k + |woman|][2..];
      assert woman[2..] == man;
      assert OccursAt(s, man, k + 2);
      assert false;
    }
  }

  /** So a caption saying "woman" comes out saying "wobrave soul". */
  lemma WomanBecomesWobraveSoul(s: string)
    requires s == "woman"
    ensures ApplyRules(s, Exaggerations[..4]) == "wobrave soul"
  {
    WomanRuleInert(s);
    FirstRules();
    ManRule();
    NoPersonInWoman(s);
    ApplyRulesStep(s, Exaggerations, 0);
    ApplyRulesStep(s, Exaggerations, 1);
    ApplyRulesStep(s, Exaggerations, 2);
    assert ApplyRules(s, Exaggerations[..0]) == s by {
      assert Exaggerations[..0] == [];
    }
    ReplaceAbsent(s, "person", "extremely dedicated athlete");
    assert ApplyRules(s, Exaggerations[..1]) == s;
    ReplaceAbsent(s, "people", "a herd of questionable decision-makers");
    assert ApplyRules(s, Exaggerations[..2]) == s;
    ManInWoman(s);
  }

  lemma FirstRules()
    ensures Exaggerations[0] == ("person", "extremely dedicated athlete")
    ensures Exaggerations[1] == ("people", "a herd of questionable decision-makers")
  {
  }

  lemma NoPersonInWoman(s: string)
    requires s == "woman"
    ensures !Contains(s, "person") && !Contains(s, "people")
  {
  }

  lemma ManInWoman(s: string)
    requires s == "woman"
    ensures Replace(s, "man", "brave soul") == "wobrave soul"
  {
    var pat := "man";
    var rep := "brave soul";
    assert s[..3][0] == 'w' && pat[0] == 'm';
    assert s[1..][..3][0] == 'o';
    assert s[2..] == pat;
    assert s[2..][..3] == pat;
    assert s[2..][3..] == [];
    calc {
      Replace(s, pat, rep);
      [s[0]] + Replace(s[1..], pat, rep);
      [s[0]] + ([s[1]] + Replace(s[2..], pat, rep));
      [s[0]] + ([s[1]] + (rep + Replace([], pat, rep)));
    }
  }

  // ---------------------------------------------------------------------------
  // make_silly
  // ---------------------------------------------------------------------------

  /** `result[0].upper() + result[1:] if result else result`, for ASCII letters. */
  function Capitalize(s: string): (r: string)
    ensures |r| == |s|
    ensures s != [] ==> r[0] == UpperChar(s[0]) && r[1..] == s[1..]
  {
    if s == [] then s else [UpperChar(s[0])] + s[1..]
  }

  /** The caption after the rewrites and the capitalisation. */
  function Body(caption: string): string
  {
    Capitalize(ApplyRules(Lower(caption), Exaggerations))
  }

  /**
   * The random values one call of `make_silly` draws: `random.random()`,
   * the `random.randint(2, len(words) - 1)` position as a function of the
   * word count, and the indexes `random.choice` picks in the aside, prefix
   * and suffix lists.
   */
  datatype Draws = Draws(chance: real, insertAt: nat -> nat, aside: nat, prefix: nat, suffix: nat)

  /** The ranges the draws come from. */
  ghost predicate ValidDraws(d: Draws)
  {
    && 0.0 <= d.chance < 1.0
    && (forall n: nat :: n > 3 ==> 2 <= d.insertAt(n) <= n - 1)
    && d.aside < AsideCount && d.prefix < PrefixCount && d.suffix < SuffixCount
  }

  /** An aside goes in below the 0.3 draw, and only into a body of more than three words. */
  predicate TakesAside(body: string, d: Draws)
  {
    d.chance < 0.3 && |Words(body)| > 3
  }

  /** `words.insert(pos, x)`. */
  function InsertAt(words: seq<string>, pos: nat, x: string): (r: seq<string>)
    requires pos <= |words|
    ensures |r| == |words| + 1 && r[pos] == x
    ensures r[..pos] == words[..pos] && r[pos + 1..] == words[pos..]
  {
    words[..pos] + [x] + words[pos..]
  }

  /** The body, with the aside inserted and the words rejoined when it takes one. */
  function WithAside(body: string, d: Draws): string
    requires ValidDraws(d)
  {
    if TakesAside(body, d) then
      var words := Words(body);
      Join(InsertAt(words, d.insertAt(|words|), Aside(d.aside)))
    else body
  }

  /** `make_silly(caption)` with the draws `d`. */
  function Silly(caption: string, d: Draws): string
    requires ValidDraws(d)
  {
    Prefix(d.prefix) + " " + WithAside(Body(caption), d) + ". " + Suffix(d.suffix)
  }

  /**
   * `make_silly`: the rewrite loop over the exaggerations, the
   * capitalisation, the aside and the prefix and suffix.
   */
  method MakeSilly(caption: string, d: Draws) returns (r: string)
    requires ValidDraws(d)
    ensures r == Silly(caption, d)
  {
    var result := Lower(caption);
    var i := 0;
    while i < |Exaggerations|
      invariant i <= |Exaggerations|
      invariant result == ApplyRules(Lower(caption), Exaggerations[..i])
    {
      var (boring, funny) := Exaggerations[i];
      ApplyRulesStep(Lower(caption), Exaggerations, i);
      result := Replace(result, boring, funny);
      i := i + 1;
    }
    assert Exaggerations[..i] == Exaggerations;
    if result != [] {
      result := [UpperChar(result[0])] + result[1..];
    }
    if d.chance < 0.3 {
      var words := Words(result);
      if |words| > 3 {
        var pos := d.insertAt(|words|);
        words := words[..pos] + [Aside(d.aside)] + words[pos..];
        result := Join(words);
      }
    }
    r := Prefix(d.prefix) + " " + result + ". " + Suffix(d.suffix);
  }

  /** The result is a prefix from the list and a space, the body, then a full stop, a space and a suffix from the list. */
  lemma SillyFrame(caption: string, d: Draws)
    requires ValidDraws(d)
    ensures var r := Silly(caption, d);
            var p := Prefix(d.prefix);
            var s := Suffix(d.suffix);
            && |r| >= |p| + 3 + |s|
            && r[..|p| + 1] == p + " "
            && r[|r| - |s| - 2..] == ". " + s
            && r[|p| + 1..|r| - |s| - 2] == WithAside(Body(caption), d)
  {
    var p, b, s := Prefix(d.prefix), WithAside(Body(caption), d), Suffix(d.suffix);
    assert Silly(caption, d) == p + " " + b + ". " + s;
    Framed(p, b, s);
  }

  lemma Framed(p: string, b: string, s: string)
    ensures var r := p + " " + b + ". " + s;
            && |r| >= |p| + 3 + |s|
            && r[..|p| + 1] == p + " "
            && r[|r| - |s| - 2..] == ". " + s
            && r[|p| + 1..|r| - |s| - 2] == b
  {
  }

  /**
   * With an aside: the first `pos` words, the words of the aside, then the
   * remaining words; `pos` is at least 2 and the last word stays last.
   */
  lemma AsideWords(body: string, d: Draws)
    requires ValidDraws(d) && TakesAside(body, d)
    ensures var ws := Words(body);
            var pos := d.insertAt(|ws|);
            && 2 <= pos < |ws|
            && Words(WithAside(body, d)) == ws[..pos] + Words(Aside(d.aside)) + ws[pos..]
  {
    var ws := Words(body);
    InsertedWords(ws, d.insertAt(|ws|), Aside(d.aside));
  }

  /** Splitting the rejoined words gives the words with those of `x` in place. */
  lemma InsertedWords(ws: seq<string>, pos: nat, x: string)
    requires pos <= |ws| && forall i :: 0 <= i < |ws| ==> IsWord(ws[i])
    ensures Words(Join(InsertAt(ws, pos, x))) == ws[..pos] + Words(x) + ws[pos..]
  {
    var inserted := InsertAt(ws, pos, x);
    WordsOfJoin(inserted);
    assert inserted == ws[..pos] + [x] + ws[pos..];
    WordsOfAllAppend(ws[..pos] + [x], ws[pos..]);
    WordsOfAllAppend(ws[..pos], [x]);
    WordsOfAllWords(ws[..pos]);
    WordsOfAllWords(ws[pos..]);
    assert WordsOfAll([x]) == Words(x) by {
      assert [x][1..] == [];
    }
  }

  /** So the first two words and the last word of the body keep their places. */
  lemma AsideKeepsEnds(body: string, d: Draws)
    requires ValidDraws(d) && TakesAside(body, d)
    ensures var ws := Words(body);
            var out := Words(WithAside(body, d));
            && |out| == |ws| + |Words(Aside(d.aside))|
            && out[0] == ws[0] && out[1] == ws[1] && out[|out| - 1] == ws[|ws| - 1]
  {
    AsideWords(body, d);
  }

  /** Without an aside the body is returned as it is. */
  lemma NoAsideUnchanged(body: string, d: Draws)
    requires ValidDraws(d) && !TakesAside(body, d)
    ensures WithAside(body, d) == body
  {
  }

  /** An empty caption gives an empty body: the prefix, a space, a full stop, a space, the suffix. */
  lemma SillyOfEmpty(d: Draws)
    requires ValidDraws(d)
    ensures Silly("", d) == Prefix(d.prefix) + " . " + Suffix(d.suffix)
  {
    RewritePatternsNonEmpty();
    ApplyRulesEmpty(Exaggerations);
    assert Lower("") == "";
    assert Words("") == [];
  }

  lemma RewritePatternsNonEmpty()
    ensures forall i :: 0 <= i < |Exaggerations| ==> Exaggerations[i].0 != []
  {
  }

  // ---------------------------------------------------------------------------
  // process_folder
  // ---------------------------------------------------------------------------

  /** The pattern `*.webp`: the name ends with ".webp" (letter case matters). */
  predicate IsWebp(name: string)
  {
    |name| >= 5 && name[|name| - 5..] == ".webp"
  }

  /** What is stored for one image: the silly caption of the stripped model output, or the fallback if a step raised. */
  function FolderCaption(raw: Option<string>, d: Draws): string
    requires ValidDraws(d)
  {
    match raw
    case None => FolderFallback
    case Some(text) => Silly(Strip(text), d)
  }

  /**
   * `process_folder`: `listing` holds the names in the folder, or is None
   * when it does not exist; `raw` is the decoded model output for an image,
   * or None when loading it or running the model raised; `draws` are the
   * random values `make_silly` draws for it.
   */
  method ProcessFolder(listing: Option<seq<string>>, folder: string,
                       raw: string -> Option<string>, draws: string -> Draws)
    returns (captions: map<string, string>)
    requires listing.Some? ==> NoDups(listing.value)
    requires forall name :: ValidDraws(draws(name))
    ensures listing.None? ==> captions == map[]
    ensures listing.Some? ==> captions.Keys == KeysOf(folder, Select(listing.value, IsWebp))
    ensures listing.Some? ==>
              forall name :: name in listing.value && IsWebp(name) ==>
                CaptionKey(folder, name) in captions &&
                captions[CaptionKey(folder, name)] == FolderCaption(raw(name), draws(name))
    ensures listing.Some? ==> |captions| == |Select(listing.value, IsWebp)|
  {
    captions := map[];
    if listing.None? {
      return;
    }
    var selected := Select(listing.value, IsWebp);
    var images := SortNames(selected);
    SortNamesDistinct(selected);
    if images == [] {
      return;
    }
    captions := StoreCaptions(images, folder, name => FolderCaption(raw(name), draws(name)));
    KeysOfSameNames(folder, images, selected);
  }
}
