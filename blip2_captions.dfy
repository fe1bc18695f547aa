/**
 * The text handling of scripts/generate-captions_blip2.py: the word clamp
 * applied to every caption, the whitespace tidy applied to the model
 * outputs, the fallback chain of `generate_caption` and the folder walk of
 * `process_directory`. The two model passes (the BLIP-2 draft and the
 * "make it worse" rewrite) are opaque: their decoded texts, or the fact
 * that one of the steps raised, are inputs.
 */
module Blip2Captions {

  import opened Maybe
  import opened Text
  import opened Ordering
  import opened CaptionFiles

  /** What `clamp_words` returns for a caption without words. */
  const Fallback := "Such photo. Much wow."
  /** What `generate_caption` returns when any step raises. */
  const ErrorCaption := "Behold. Evidence of questionable decisions."
  /** The word limit `generate_caption` passes to `clamp_words`. */
  const MaxCaptionWords := 12
  /** The suffixes `process_directory` accepts, compared in lower case. */
  const Extensions := [".jpg", ".jpeg", ".png", ".webp"]

  // ---------------------------------------------------------------------------
  // clamp_words
  // ---------------------------------------------------------------------------

  /** The characters of `out.strip(' "\'')`. */
  predicate Dangling(c: char)
  {
    c == ' ' || c == '"' || c == '\''
  }

  function Min(a: nat, b: nat): nat
  {
    if a <= b then a else b
  }

  /** `clamp_words(s, max_words)` for a non-negative word limit. */
  function ClampWords(s: string, maxWords: nat): string
  {
    var words := Words(Strip(s));
    if words == [] then Fallback
    else
      var kept := if |words| > maxWords then words[..maxWords] else words;
      Trim(Strip(Join(kept)), Dangling)
  }

  /** A caption that is empty or all whitespace becomes the fallback. */
  lemma ClampWordsBlank(s: string, maxWords: nat)
    requires AllSpace(s)
    ensures ClampWords(s, maxWords) == Fallback
  {
    WordsStrip(s);
    WordsEmptyIff(s);
  }

  /**
   * Otherwise the result is the first `min(#words, max_words)` words of the
   * caption joined by single spaces, with spaces and quotes trimmed from
   * both ends.
   */
  lemma ClampWordsKept(s: string, maxWords: nat)
    requires !AllSpace(s)
    ensures ClampWords(s, maxWords) == Trim(Join(Words(s)[..Min(|Words(s)|, maxWords)]), Dangling)
  {
    WordsStrip(s);
    WordsEmptyIff(s);
    var words := Words(s);
    var kept := words[..Min(|words|, maxWords)];
    KeptWords(words, maxWords);
    JoinStripped(kept);
    ClampUnfold(s, maxWords, words, kept);
  }

  /** So a caption with words neither starts nor ends with a space or a quote. */
  lemma ClampWordsEnds(s: string, maxWords: nat)
    requires !AllSpace(s)
    ensures var r := ClampWords(s, maxWords); r == [] || (!Dangling(r[0]) && !Dangling(r[|r| - 1]))
  {
    ClampWordsKept(s, maxWords);
    var t := Trim(Join(Words(s)[..Min(|Words(s)|, maxWords)]), Dangling);
    assert ClampWords(s, maxWords) == t;
  }

  lemma ClampUnfold(s: string, maxWords: nat, words: seq<string>, kept: seq<string>)
    requires words == Words(Strip(s)) && words != []
    requires kept == (if |words| > maxWords then words[..maxWords] else words)
    requires Strip(Join(kept)) == Join(kept)
    ensures ClampWords(s, maxWords) == Trim(Join(kept), Dangling)
  {
  }

  /** The words `clamp_words` keeps are the first `min(#words, max_words)`, and they are words. */
  lemma KeptWords(words: seq<string>, maxWords: nat)
    requires forall i :: 0 <= i < |words| ==> IsWord(words[i])
    ensures var kept := words[..Min(|words|, maxWords)];
            && kept == (if |words| > maxWords then words[..maxWords] else words)
            && forall i :: 0 <= i < |kept| ==> IsWord(kept[i])
  {
    assert words[..|words|] == words;
  }

  /** A caption with words keeps at most `max_words` of them. */
  lemma ClampWordsBound(s: string, maxWords: nat)
    requires !AllSpace(s)
    ensures |Words(ClampWords(s, maxWords))| <= maxWords
  {
    var words := Words(s);
    var kept := words[..Min(|words|, maxWords)];
    ClampWordsKept(s, maxWords);
    KeptWords(words, maxWords);
    TrimmedJoinWords(kept);
  }

  lemma TrimmedJoinWords(ws: seq<string>)
    requires forall i :: 0 <= i < |ws| ==> IsWord(ws[i])
    ensures |Words(Trim(Join(ws), Dangling))| <= |ws|
  {
    JoinThenSplit(ws);
    WordsTrim(Join(ws), Dangling);
  }

  /** The clamp looks only at the words, not at the spacing between them. */
  lemma ClampWordsSpacing(a: string, b: string, maxWords: nat)
    requires Words(a) == Words(b)
    ensures ClampWords(a, maxWords) == ClampWords(b, maxWords)
  {
    WordsStrip(a);
    WordsStrip(b);
  }

  /** Joining non-empty words gives a string that starts and ends with a non-space. */
  lemma {:induction false} JoinEnds(ws: seq<string>)
    requires forall i :: 0 <= i < |ws| ==> IsWord(ws[i])
    ensures var j := Join(ws); ws != [] ==> j != [] && !IsSpace(j[0]) && !IsSpace(j[|j| - 1])
  {
    if |ws| > 1 {
      JoinEnds(ws[1..]);
      var j := Join(ws);
      assert j == ws[0] + " " + Join(ws[1..]);
      assert j[0] == ws[0][0];
    }
  }

  /** Joined words have no whitespace to strip. */
  lemma JoinStripped(ws: seq<string>)
    requires forall i :: 0 <= i < |ws| ==> IsWord(ws[i])
    ensures Strip(Join(ws)) == Join(ws)
  {
    JoinEnds(ws);
    if ws == [] {
      assert Join(ws) == [];
    }
    StripUnchanged(Join(ws));
  }

  lemma StripUnchanged(s: string)
    requires s == [] || (!IsSpace(s[0]) && !IsSpace(s[|s| - 1]))
    ensures Strip(s) == s
  {
  }

  // ---------------------------------------------------------------------------
  // tidy
  // ---------------------------------------------------------------------------

  /** `tidy(s)`: strip, collapse every whitespace run to one space, strip again. */
  function Tidy(s: string): string
  {
    Strip(Collapse(Strip(s)))
  }

  /** What `tidy` produces: no whitespace at the ends, only single plain spaces inside. */
  predicate Tidied(t: string)
  {
    (t == [] || (!IsSpace(t[0]) && !IsSpace(t[|t| - 1]))) && NoDoubleSpace(t) && OnlyBlank(t)
  }

  lemma TidyNormalForm(s: string)
    ensures Tidied(Tidy(s))
  {
    var c := Collapse(Strip(s));
    var l := TrimLeft(c, IsSpace);
    TrimKeepsSpacing(c, l, TrimRight(l, IsSpace));
  }

  /** Cutting characters off both ends keeps single plain spaces single and plain. */
  lemma TrimKeepsSpacing(c: string, l: string, r: string)
    requires |l| <= |c| && l == c[|c| - |l|..] && |r| <= |l| && r == l[..|r|]
    requires NoDoubleSpace(c) && OnlyBlank(c)
    ensures NoDoubleSpace(r) && OnlyBlank(r)
  {
    var off := |c| - |l|;
    assert forall i :: 0 <= i < |r| ==> r[i] == c[off + i];
  }

  /** `tidy` keeps the non-whitespace characters in order, and so the words. */
  lemma TidyKeepsText(s: string)
    ensures NonSpace(Tidy(s)) == NonSpace(s)
    ensures Words(Tidy(s)) == Words(s)
  {
    NonSpaceStrip(s);
    NonSpaceCollapse(Strip(s));
    NonSpaceStrip(Collapse(Strip(s)));
    WordsStrip(s);
    WordsCollapse(Strip(s));
    WordsStrip(Collapse(Strip(s)));
  }

  /** A tidied string is left unchanged by `tidy`. */
  lemma TidyFixesTidied(t: string)
    requires Tidied(t)
    ensures Tidy(t) == t
  {
    StripUnchanged(t);
    CollapseTidied(t);
  }

  lemma {:induction false} CollapseTidied(t: string)
    requires NoDoubleSpace(t) && OnlyBlank(t)
    ensures Collapse(t) == t
    decreases |t|
  {
    if t != [] {
      var rest := t[1..];
      assert NoDoubleSpace(rest) && OnlyBlank(rest) by {
        assert forall i :: 0 <= i < |rest| ==> rest[i] == t[i + 1];
      }
      CollapseTidied(rest);
      if IsSpace(t[0]) {
        assert SpaceRunLen(t) == 1 by {
          if |t| > 1 { assert !IsSpace(t[1]); }
        }
        assert t == " " + rest;
      } else {
        assert t == [t[0]] + rest;
      }
    }
  }

  /** `tidy(tidy(s)) == tidy(s)`. */
  lemma TidyIdempotent(s: string)
    ensures Tidy(Tidy(s)) == Tidy(s)
  {
    TidyNormalForm(s);
    TidyFixesTidied(Tidy(s));
  }

  // ---------------------------------------------------------------------------
  // generate_caption
  // ---------------------------------------------------------------------------

  /**
   * How the steps of `generate_caption` went for one image: a step raised
   * (opening the image or either model pass), or the two passes decoded to
   * these texts (before `tidy`).
   */
  datatype Outcome = Raised | Decoded(draft: string, rewrite: string)

  /** `generate_caption`: the clamped rewrite, the clamped draft if that is nearly empty, or the error caption. */
  function GenerateCaption(o: Outcome): (caption: string)
  {
    match o
    case Raised => ErrorCaption
    case Decoded(d, w) =>
      var draft := Tidy(d);
      var final := ClampWords(Tidy(w), MaxCaptionWords);
      if |Strip(final)| < 2 then ClampWords(draft, MaxCaptionWords) else final
  }

  /** The caption never has more than twelve words. */
  lemma GenerateCaptionBound(o: Outcome)
    ensures |Words(GenerateCaption(o))| <= MaxCaptionWords
  {
    match o
    case Raised =>
      ErrorCaptionWords();
    case Decoded(d, w) =>
      ClampedWords(Tidy(d));
      ClampedWords(Tidy(w));
  }

  /**
   * `tidy` plays no part in the caption: it is the clamped rewrite unless
   * that strips to less than two characters, and then the clamped draft.
   */
  lemma GenerateCaptionUntidied(draft: string, rewrite: string)
    ensures var w := ClampWords(rewrite, MaxCaptionWords);
            GenerateCaption(Decoded(draft, rewrite)) ==
              if |Strip(w)| < 2 then ClampWords(draft, MaxCaptionWords) else w
  {
    TidyKeepsText(draft);
    TidyKeepsText(rewrite);
    ClampWordsSpacing(Tidy(draft), draft, MaxCaptionWords);
    ClampWordsSpacing(Tidy(rewrite), rewrite, MaxCaptionWords);
  }

  lemma ClampedWords(s: string)
    ensures |Words(ClampWords(s, MaxCaptionWords))| <= MaxCaptionWords
  {
    FallbackWords();
    if AllSpace(s) {
      ClampWordsBlank(s, MaxCaptionWords);
    } else {
      ClampWordsBound(s, MaxCaptionWords);
    }
  }

  /** The fallback caption has four words. */
  lemma FallbackWords()
    ensures |Words(Fallback)| == 4
  {
    FallbackSpelling();
    FallbackPieces();
    FourWords("Such", "photo.", "Much", "wow.");
  }

  lemma FallbackSpelling()
    ensures Fallback == "Such" + " " + ("photo." + " " + ("Much" + " " + "wow."))
  {
  }

  lemma FallbackPieces()
    ensures IsWord("Such") && IsWord("photo.") && IsWord("Much") && IsWord("wow.")
  {
  }

  lemma FourWords(w0: string, w1: string, w2: string, w3: string)
    requires IsWord(w0) && IsWord(w1) && IsWord(w2) && IsWord(w3)
    ensures |Words(w0 + " " + (w1 + " " + (w2 + " " + w3)))| == 4
  {
    WordsOfWord(w3);
    WordThenRest(w2, w3);
    WordThenRest(w1, w2 + " " + w3);
    WordThenRest(w0, w1 + " " + (w2 + " " + w3));
  }

  /** The error caption has five words. */
  lemma ErrorCaptionWords()
    ensures |Words(ErrorCaption)| == 5
  {
    ErrorCaptionSpelling();
    ErrorCaptionPieces();
    FiveWords("Behold.", "Evidence", "of", "questionable", "decisions.");
  }

  lemma ErrorCaptionSpelling()
    ensures ErrorCaption == "Behold." + " " + ("Evidence" + " " + ("of" + " " + ("questionable" + " " + "decisions.")))
  {
  }

  lemma ErrorCaptionPieces()
    ensures IsWord("Behold.") && IsWord("Evidence") && IsWord("of") && IsWord("questionable") && IsWord("decisions.")
  {
  }

  lemma FiveWords(w0: string, w1: string, w2: string, w3: string, w4: string)
    requires IsWord(w0) && IsWord(w1) && IsWord(w2) && IsWord(w3) && IsWord(w4)
    ensures |Words(w0 + " " + (w1 + " " + (w2 + " " + (w3 + " " + w4))))| == 5
  {
    WordThenRest(w3, w4);
    WordsOfWord(w4);
    WordThenRest(w2, w3 + " " + w4);
    WordThenRest(w1, w2 + " " + (w3 + " " + w4));
    WordThenRest(w0, w1 + " " + (w2 + " " + (w3 + " " + w4)));
  }

  lemma WordThenRest(w: string, rest: string)
    requires IsWord(w)
    ensures Words(w + " " + rest) == [w] + Words(rest)
  {
    WordsAppend(w, " " + rest);
    WordsOfWord(w);
    assert w + " " + rest == w + (" " + rest);
    assert (" " + rest)[1..] == rest;
  }

  // ---------------------------------------------------------------------------
  // process_directory
  // ---------------------------------------------------------------------------

  /** The position of the last `c` in `s` (`str.rfind`). */
  function LastIndexOf(s: string, c: char): (r: Option<nat>)
    ensures r.Some? ==> r.value < |s| && s[r.value] == c && forall k :: r.value < k < |s| ==> s[k] != c
    ensures r.None? ==> c !in s
  {
    if s == [] then None
    else if s[|s| - 1] == c then Some(|s| - 1)
    else
      var r := LastIndexOf(s[..|s| - 1], c);
      assert forall k :: 0 <= k < |s| - 1 ==> s[k] == s[..|s| - 1][k];
      r
  }

  /** `PurePath.suffix`: from the last "." on, unless that dot starts or ends the name. */
  function Suffix(name: string): string
  {
    match LastIndexOf(name, '.')
    case Some(i) => if 0 < i < |name| - 1 then name[i..] else ""
    case None => ""
  }

  /** The filter of `process_directory`: `p.suffix.lower()` is one of the image extensions. */
  predicate IsImage(name: string)
  {
    Lower(Suffix(name)) in Extensions
  }

  /**
   * A name is selected exactly when it ends, in any letter case, with one
   * of the extensions and is longer than it (so ".png" alone is not an
   * image).
   */
  lemma IsImageIff(name: string)
    ensures IsImage(name) <==>
              exists e :: e in Extensions && |e| < |name| && Lower(name[|name| - |e|..]) == e
  {
    if IsImage(name) {
      IsImageHasExtension(name);
    }
    if e :| e in Extensions && |e| < |name| && Lower(name[|name| - |e|..]) == e {
      ExtensionMakesImage(name, e);
    }
  }

  lemma IsImageHasExtension(name: string)
    requires IsImage(name)
    ensures exists e :: e in Extensions && |e| < |name| && Lower(name[|name| - |e|..]) == e
  {
    var suffix := Suffix(name);
    var e := Lower(suffix);
    LowerEmpty(suffix);
    NoEmptyExtension();
    SuffixOfName(name);
    assert e in Extensions && |e| < |name| && name[|name| - |e|..] == suffix;
  }

  lemma LowerEmpty(s: string)
    ensures Lower(s) == "" <==> s == ""
  {
  }

  /** A non-empty suffix is the tail of the name after its first character. */
  lemma SuffixOfName(name: string)
    ensures Suffix(name) != "" ==> |Suffix(name)| < |name| && Suffix(name) == name[|name| - |Suffix(name)|..]
  {
  }

  lemma ExtensionMakesImage(name: string, e: string)
    requires e in Extensions && |e| < |name| && Lower(name[|name| - |e|..]) == e
    ensures IsImage(name)
  {
    ExtensionShape(e);
    var i := |name| - |e|;
    var tail := name[i..];
    assert LowerChar(tail[0]) == '.';
    assert name[i] == '.';
    forall k | i < k < |name| ensures name[k] != '.' {
      assert LowerChar(tail[k - i]) == e[k - i];
    }
    var j := LastIndexOf(name, '.').value;
    assert j == i;
    assert Suffix(name) == tail;
  }

  /** No extension is empty. */
  lemma NoEmptyExtension()
    ensures "" !in Extensions
  {
  }

  /** Every extension is a dot followed by at least one character that is not a dot. */
  lemma ExtensionShape(e: string)
    requires e in Extensions
    ensures |e| >= 2 && e[0] == '.' && forall k :: 0 < k < |e| ==> e[k] != '.'
  {
  }

  /** The images `process_directory` visits, in the order it visits them. */
  function Images(listing: seq<string>): seq<string>
  {
    SortNames(Select(listing, IsImage))
  }

  /**
   * `process_directory`: `listing` holds the names in the folder, or is
   * None when the folder does not exist; `outcome` says how captioning each
   * image went. The result is the dict written to the YAML file: one entry
   * per image, under its key, holding the caption `generate_caption` made.
   */
  method ProcessDirectory(listing: Option<seq<string>>, folder: string, outcome: string -> Outcome)
    returns (captions: map<string, string>)
    requires listing.Some? ==> NoDups(listing.value)
    ensures listing.None? ==> captions == map[]
    ensures listing.Some? ==> captions.Keys == KeysOf(folder, Select(listing.value, IsImage))
    ensures listing.Some? ==>
              forall name :: name in listing.value && IsImage(name) ==>
                CaptionKey(folder, name) in captions &&
                captions[CaptionKey(folder, name)] == GenerateCaption(outcome(name))
    ensures listing.Some? ==> |captions| == |Select(listing.value, IsImage)|
  {
    captions := map[];
    if listing.None? {
      return;
    }
    var selected := Select(listing.value, IsImage);
    var images := Images(listing.value);
    SortNamesDistinct(selected);
    captions := StoreCaptions(images, folder, name => GenerateCaption(outcome(name)));
    KeysOfSameNames(folder, images, selected);
  }
}
