/**
 * The worker's text pipeline between the OCR call and the stored chapter
 * text: paragraph splitting, stripping of symbols and digits, the nonsense
 * filter with its padding rule, and the dictionary-ratio filter. The OCR
 * engine, the nonsense classifier, the tokenizer and the word list are
 * outside the model and arrive as the fields of `Oracles`.
 */
module TextPipeline {
  import opened Seqs

  /**
   * The external services: `ocr` maps a page URL to its recognised text
   * (or to the "Error: ..." string the extractor returns on failure),
   * `nonsense` is the gibberish classifier, `tokenize` the word tokenizer
   * and `isWord` tells whether a token, lower-cased, is in the English word list.
   */
  datatype Oracles = Oracles(ocr: string -> string, nonsense: string -> bool,
                             tokenize: string -> seq<string>, isWord: string -> bool)

  // ---------------------------------------------------------------- text_formatter

  /** str.split("\n\n"): the pieces between non-overlapping breaks, found from the left. */
  function Split(s: string): (r: seq<string>)
    ensures |r| >= 1
    decreases |s|
  {
    if |s| < 2 then [s]
    else if s[..2] == "\n\n" then [""] + Split(s[2..])
    else
      var rest := Split(s[1..]);
      [[s[0]] + rest[0]] + rest[1..]
  }

  /** sep.join(parts). */
  function Join(parts: seq<string>, sep: string): string
    decreases |parts|
  {
    if parts == [] then ""
    else if |parts| == 1 then parts[0]
    else parts[0] + sep + Join(parts[1..], sep)
  }

  /** The string contains a paragraph break. */
  predicate HasBreak(p: string)
  {
    exists i :: 0 <= i < |p| - 1 && p[i] == '\n' && p[i + 1] == '\n'
  }

  lemma {:induction false} JoinStartsWithFirst(parts: seq<string>, sep: string)
    requires |parts| >= 1
    ensures |parts[0]| <= |Join(parts, sep)| && Join(parts, sep)[..|parts[0]|] == parts[0]
  {
  }

  /** Joining the pieces with the break gives back the text. */
  lemma {:induction false} SplitJoin(s: string)
    ensures Join(Split(s), "\n\n") == s
    decreases |s|
  {
    if |s| >= 2 {
      if s[..2] == "\n\n" {
        SplitJoin(s[2..]);
        var rest := Split(s[2..]);
        assert ([""] + rest)[1..] == rest;
        assert s == "\n\n" + s[2..];
      } else {
        SplitJoin(s[1..]);
        var rest := Split(s[1..]);
        var r := [[s[0]] + rest[0]] + rest[1..];
        if |rest| > 1 {
          assert r[1..] == rest[1..];
        }
        assert s == [s[0]] + s[1..];
      }
    }
  }

  /** No piece contains a break: the split is at every break, not just some. */
  lemma {:induction false} SplitMaximal(s: string)
    ensures forall k :: 0 <= k < |Split(s)| ==> !HasBreak(Split(s)[k])
    decreases |s|
  {
    if |s| >= 2 {
      if s[..2] == "\n\n" {
        SplitMaximal(s[2..]);
        var rest := Split(s[2..]);
        assert forall k :: 1 <= k < |Split(s)| ==> Split(s)[k] == rest[k - 1];
      } else {
        SplitMaximal(s[1..]);
        var rest := Split(s[1..]);
        var p := [s[0]] + rest[0];
        SplitJoin(s[1..]);
        JoinStartsWithFirst(rest, "\n\n");
        assert s[..2] == [s[0], s[1]];
        forall i | 0 <= i < |p| - 1
          ensures !(p[i] == '\n' && p[i + 1] == '\n')
        {
          if i == 0 {
            assert p[1] == rest[0][0] == s[1..][0];
          } else {
            assert p[i] == rest[0][i - 1] && p[i + 1] == rest[0][i];
          }
        }
        assert forall k :: 1 <= k < |Split(s)| ==> Split(s)[k] == rest[k];
      }
    }
  }

  /** str.replace('\n', ' '). */
  function NewlinesToSpaces(p: string): (r: string)
    ensures |r| == |p| && '\n' !in r
    ensures forall j :: 0 <= j < |p| && p[j] == '\n' ==> r[j] == ' '
    ensures forall j :: 0 <= j < |p| && p[j] != '\n' ==> r[j] == p[j]
  {
    seq(|p|, j requires 0 <= j < |p| => if p[j] == '\n' then ' ' else p[j])
  }

  /** text_formatter: one string per paragraph, its line breaks turned into spaces. */
  function TextFormatter(text: string): (r: seq<string>)
    ensures |r| == |Split(text)| && |r| >= 1
    ensures forall k :: 0 <= k < |r| ==> r[k] == NewlinesToSpaces(Split(text)[k])
    ensures forall k :: 0 <= k < |r| ==> '\n' !in r[k] && |r[k]| == |Split(text)[k]|
  {
    var parts := Split(text);
    seq(|parts|, k requires 0 <= k < |parts| => NewlinesToSpaces(parts[k]))
  }

  // ---------------------------------------------------------------- char_remover

  /** The characters of char_remover's symbol pattern. */
  predicate IsSymbol(c: char)
  {
    c in {'@', '#', '$', '&', '\U{20AC}', '=', '\U{00B0}', ':', '(', ')', '{', '}', '|', '+', '~', '/',
          '`', '\U{2018}', '\\', '>', '<', '\U{2122}', '\U{00A9}', '\U{00AE}', '[', ']', '\U{00A5}', '*',
          '\U{00BB}', '%', '\U{00A2}'}
  }

  predicate PassesSymbolPattern(c: char)
  {
    !IsSymbol(c)
  }

  predicate PassesDigitPattern(c: char)
  {
    !IsDigit(c)
  }

  predicate IsKeptByRemover(c: char)
  {
    !IsSymbol(c) && !IsDigit(c)
  }

  /** The two substitutions char_remover applies to one string: symbols first, then digits. */
  function StripNoise(s: string): string
  {
    Filter(Filter(s, PassesSymbolPattern), PassesDigitPattern)
  }

  /**
   * Stripping deletes every symbol and digit and keeps every other character,
   * as often as it occurs and in its original order; the order of the two
   * passes does not matter.
   */
  lemma StripNoiseExact(s: string, c: char)
    ensures StripNoise(s) == Filter(s, IsKeptByRemover)
    ensures multiset(StripNoise(s))[c] == if IsSymbol(c) || IsDigit(c) then 0 else multiset(s)[c]
    ensures IsSubseq(StripNoise(s), s)
  {
    FilterTwice(s, PassesSymbolPattern, PassesDigitPattern, IsKeptByRemover);
    FilterCount(s, IsKeptByRemover, c);
    FilterIsSubseq(s, IsKeptByRemover);
  }

  /** Running char_remover on its own output changes nothing. */
  lemma StripNoiseIdempotent(s: string)
    ensures StripNoise(StripNoise(s)) == StripNoise(s)
  {
    var once := StripNoise(s);
    StripNoiseExact(s, ' ');
    FilterAll(once, PassesSymbolPattern);
    FilterAll(once, PassesDigitPattern);
  }

  /** char_remover: rewrites each element of the list in place; the length is unchanged. */
  method CharRemover(text: array<string>)
    modifies text
    ensures forall i :: 0 <= i < text.Length ==> text[i] == StripNoise(old(text[i]))
  {
    for i := 0 to text.Length
      invariant forall j :: 0 <= j < i ==> text[j] == StripNoise(old(text[j]))
      invariant forall j :: i <= j < text.Length ==> text[j] == old(text[j])
    {
      text[i] := Filter(text[i], PassesSymbolPattern);
      text[i] := Filter(text[i], PassesDigitPattern);
    }
  }

  // ---------------------------------------------------------------- clean_text

  /** clean_text's patterns, deleted one after another in this order. */
  const Unwanted: seq<string> := [" ", "  ", "?", "!", "...", ".", ":", ",", "-", "_",
                                  "\U{2122}", "\U{201C}", "\U{201D}", "\U{2014}", "'", "\"", "\U{00A2}"]

  /** str.replace(pat, ''): the non-overlapping occurrences of `pat`, found from the left, deleted. */
  function DeleteAll(s: string, pat: string): (r: string)
    requires |pat| >= 1
    ensures |r| <= |s|
    decreases |s|
  {
    if |s| < |pat| then s
    else if s[..|pat|] == pat then DeleteAll(s[|pat|..], pat)
    else [s[0]] + DeleteAll(s[1..], pat)
  }

  function Drop(cs: set<char>): char -> bool
  {
    c => c !in cs
  }

  /** The characters clean_text's patterns delete between them. */
  const UnwantedChars: set<char> := {' ', '?', '!', '.', ':', ',', '-', '_', '\U{2122}', '\U{201C}', '\U{201D}',
                                     '\U{2014}', '\'', '"', '\U{00A2}'}

  /** The sentence clean_text classifies: every unwanted character deleted. */
  function Squeezed(s: string): string
  {
    Filter(s, Drop(UnwantedChars))
  }

  lemma {:induction false} DeleteCharIsFilter(t: string, c: char)
    ensures DeleteAll(t, [c]) == Filter(t, Drop({c}))
    decreases |t|
  {
    if |t| >= 1 {
      DeleteCharIsFilter(t[1..], c);
      assert t == [t[0]] + t[1..];
      FilterConcat([t[0]], t[1..], Drop({c}));
      FilterSingle(t[0], Drop({c}));
    }
  }

  lemma {:induction false} DeleteAbsent(t: string, pat: string)
    requires |pat| >= 1 && pat[0] !in t
    ensures DeleteAll(t, pat) == t
    decreases |t|
  {
    if |t| >= |pat| {
      assert t[..|pat|][0] == t[0];
      DeleteAbsent(t[1..], pat);
      assert t == [t[0]] + t[1..];
    }
  }

  /** Deleting runs of `c` and then every `c` is deleting every `c`. */
  lemma {:induction false} DeleteRunThenChar(t: string, pat: string, c: char)
    requires |pat| >= 1 && forall i :: 0 <= i < |pat| ==> pat[i] == c
    ensures Filter(DeleteAll(t, pat), Drop({c})) == Filter(t, Drop({c}))
    decreases |t|
  {
    if |t| >= |pat| {
      if t[..|pat|] == pat {
        DeleteRunThenChar(t[|pat|..], pat, c);
        RunDeleted(t, pat, c);
      } else {
        DeleteRunThenChar(t[1..], pat, c);
        FirstKept(t, pat, c);
      }
    }
  }

  /** A run of `c` at the front of `t` contributes nothing once `c` is filtered out. */
  lemma RunDeleted(t: string, pat: string, c: char)
    requires |pat| <= |t| && t[..|pat|] == pat && forall i :: 0 <= i < |pat| ==> pat[i] == c
    ensures Filter(t, Drop({c})) == Filter(t[|pat|..], Drop({c}))
  {
    SplitAt(t, |pat|);
    FilterConcat(pat, t[|pat|..], Drop({c}));
    FilterNone(pat, Drop({c}));
  }

  /** Where the pattern does not match, the first character stays in front. */
  lemma FirstKept(t: string, pat: string, c: char)
    requires 1 <= |pat| <= |t| && t[..|pat|] != pat
    requires Filter(DeleteAll(t[1..], pat), Drop({c})) == Filter(t[1..], Drop({c}))
    ensures Filter(DeleteAll(t, pat), Drop({c})) == Filter(t, Drop({c}))
  {
    var rest := DeleteAll(t[1..], pat);
    assert DeleteAll(t, pat) == [t[0]] + rest;
    Cons(t);
    FilterConcat([t[0]], t[1..], Drop({c}));
    FilterConcat([t[0]], rest, Drop({c}));
  }

  lemma FilterDropUnion(s: string, a: set<char>, b: set<char>)
    ensures Filter(Filter(s, Drop(a)), Drop(b)) == Filter(s, Drop(a + b))
  {
    FilterTwice(s, Drop(a), Drop(b), Drop(a + b));
  }

  /** The sentence after the first `k` patterns of clean_text's inner loop. */
  function Stage(s: string, k: nat): string
    requires k <= |Unwanted|
  {
    if k == 0 then s else DeleteAll(Stage(s, k - 1), Unwanted[k - 1])
  }

  /** A one-character pattern deletes that character on top of those already gone. */
  lemma SingleStep(s: string, gone: set<char>, c: char, k: nat, after: set<char>)
    requires k < |Unwanted| && Unwanted[k] == [c] && after == gone + {c}
    requires Stage(s, k) == Filter(s, Drop(gone))
    ensures Stage(s, k + 1) == Filter(s, Drop(after))
  {
    DeleteCharIsFilter(Stage(s, k), c);
    FilterDropUnion(s, gone, {c});
  }

  lemma StageSpace(s: string)
    ensures Stage(s, 1) == Filter(s, Drop({' '}))
  {
    FilterAll(s, Drop({}));
    SingleStep(s, {}, ' ', 0, {' '});
  }

  /** The double-space pattern finds nothing once the single spaces are gone. */
  lemma StageDoubleSpace(s: string)
    ensures Stage(s, 2) == Filter(s, Drop({' '}))
  {
    StageSpace(s);
    FilterMember(s, Drop({' '}), ' ');
    DeleteAbsent(Stage(s, 1), "  ");
  }

  lemma StagesUpToBang(s: string)
    ensures Stage(s, 4) == Filter(s, Drop({' ', '?', '!'}))
  {
    StageDoubleSpace(s);
    SingleStep(s, {' '}, '?', 2, {' ', '?'});
    SingleStep(s, {' ', '?'}, '!', 3, {' ', '?', '!'});
  }

  /** A run pattern of `c` followed by the single `c` deletes every `c` on top of those already gone. */
  lemma RunStep(s: string, gone: set<char>, pat: string, c: char, k: nat, after: set<char>)
    requires k + 1 < |Unwanted| && Unwanted[k] == pat && Unwanted[k + 1] == [c] && after == gone + {c}
    requires |pat| >= 1 && forall i :: 0 <= i < |pat| ==> pat[i] == c
    requires Stage(s, k) == Filter(s, Drop(gone))
    ensures Stage(s, k + 2) == Filter(s, Drop(after))
  {
    var t := Filter(s, Drop(gone));
    DeleteCharIsFilter(DeleteAll(t, pat), c);
    DeleteRunThenChar(t, pat, c);
    FilterDropUnion(s, gone, {c});
  }

  /** Deleting "..." and then "." deletes every dot. */
  lemma StagesUpToDots(s: string)
    ensures Stage(s, 6) == Filter(s, Drop({' ', '?', '!', '.'}))
  {
    StagesUpToBang(s);
    RunStep(s, {' ', '?', '!'}, "...", '.', 4, {' ', '?', '!', '.'});
  }

  lemma StagesUpToComma(s: string)
    ensures Stage(s, 8) == Filter(s, Drop({' ', '?', '!', '.', ':', ','}))
  {
    StagesUpToDots(s);
    SingleStep(s, {' ', '?', '!', '.'}, ':', 6, {' ', '?', '!', '.', ':'});
    SingleStep(s, {' ', '?', '!', '.', ':'}, ',', 7, {' ', '?', '!', '.', ':', ','});
  }

  lemma StagesUpToUnderscore(s: string)
    ensures Stage(s, 10) == Filter(s, Drop({' ', '?', '!', '.', ':', ',', '-', '_'}))
  {
    StagesUpToComma(s);
    SingleStep(s, {' ', '?', '!', '.', ':', ','}, '-', 8, {' ', '?', '!', '.', ':', ',', '-'});
    SingleStep(s, {' ', '?', '!', '.', ':', ',', '-'}, '_', 9, {' ', '?', '!', '.', ':', ',', '-', '_'});
  }

  lemma StagesUpToOpeningQuote(s: string)
    ensures Stage(s, 12) == Filter(s, Drop({' ', '?', '!', '.', ':', ',', '-', '_', '\U{2122}', '\U{201C}'}))
  {
    StagesUpToUnderscore(s);
    SingleStep(s, {' ', '?', '!', '.', ':', ',', '-', '_'}, '\U{2122}', 10,
               {' ', '?', '!', '.', ':', ',', '-', '_', '\U{2122}'});
    SingleStep(s, {' ', '?', '!', '.', ':', ',', '-', '_', '\U{2122}'}, '\U{201C}', 11,
               {' ', '?', '!', '.', ':', ',', '-', '_', '\U{2122}', '\U{201C}'});
  }

  lemma StagesUpToDash(s: string)
    ensures Stage(s, 14) == Filter(s, Drop({' ', '?', '!', '.', ':', ',', '-', '_', '\U{2122}', '\U{201C}', '\U{201D}', '\U{2014}'}))
  {
    StagesUpToOpeningQuote(s);
    SingleStep(s, {' ', '?', '!', '.', ':', ',', '-', '_', '\U{2122}', '\U{201C}'}, '\U{201D}', 12,
               {' ', '?', '!', '.', ':', ',', '-', '_', '\U{2122}', '\U{201C}', '\U{201D}'});
    SingleStep(s, {' ', '?', '!', '.', ':', ',', '-', '_', '\U{2122}', '\U{201C}', '\U{201D}'}, '\U{2014}', 13,
               {' ', '?', '!', '.', ':', ',', '-', '_', '\U{2122}', '\U{201C}', '\U{201D}', '\U{2014}'});
  }

  lemma StagesUpToQuotes(s: string)
    ensures Stage(s, 16) == Filter(s, Drop({' ', '?', '!', '.', ':', ',', '-', '_', '\U{2122}', '\U{201C}', '\U{201D}', '\U{2014}', '\'', '"'}))
  {
    StagesUpToDash(s);
    SingleStep(s, {' ', '?', '!', '.', ':', ',', '-', '_', '\U{2122}', '\U{201C}', '\U{201D}', '\U{2014}'}, '\'', 14,
               {' ', '?', '!', '.', ':', ',', '-', '_', '\U{2122}', '\U{201C}', '\U{201D}', '\U{2014}', '\''});
    SingleStep(s, {' ', '?', '!', '.', ':', ',', '-', '_', '\U{2122}', '\U{201C}', '\U{201D}', '\U{2014}', '\''}, '"', 15,
               {' ', '?', '!', '.', ':', ',', '-', '_', '\U{2122}', '\U{201C}', '\U{201D}', '\U{2014}', '\'', '"'});
  }

  /** After all seventeen patterns exactly the characters of UnwantedChars are gone. */
  lemma StagesDeleteUnwanted(s: string)
    ensures Stage(s, |Unwanted|) == Squeezed(s)
  {
    StagesUpToQuotes(s);
    SingleStep(s, {' ', '?', '!', '.', ':', ',', '-', '_', '\U{2122}', '\U{201C}', '\U{201D}', '\U{2014}', '\'', '"'},
               '\U{00A2}', 16, UnwantedChars);
  }

  /** The inner loop of clean_text: each unwanted pattern deleted from the sentence in turn. */
  method Squeeze(sentence: string) returns (r: string)
    ensures r == Squeezed(sentence)
  {
    r := sentence;
    for k := 0 to |Unwanted|
      invariant r == Stage(sentence, k)
    {
      r := DeleteAll(r, Unwanted[k]);
    }
    StagesDeleteUnwanted(sentence);
  }

  /** 'a' * n. */
  function Pad(n: nat): (r: string)
    ensures |r| == n && forall j :: 0 <= j < n ==> r[j] == 'a'
  {
    seq(n, _ => 'a')
  }

  /** What the classifier sees: a squeezed sentence shorter than 7 is padded with 'a' to 8 characters. */
  function Padded(t: string): (r: string)
    ensures |t| < 7 ==> |r| == 8
    ensures |t| >= 7 ==> r == t
    ensures |t| <= |r| && r[..|t|] == t && forall j :: |t| <= j < |r| ==> r[j] == 'a'
  {
    if |t| < 7 then t + Pad(8 - |t|) else t
  }

  /** The classifier rejects the sentence. */
  predicate Rejected(nonsense: string -> bool, s: string)
  {
    nonsense(Padded(Squeezed(s)))
  }

  function Rejecter(nonsense: string -> bool): string -> bool
  {
    s => Rejected(nonsense, s)
  }

  /**
   * What clean_text returns for a rejection test. A rejected element is
   * popped while the list is being enumerated, so the element that moves
   * into its place is never examined and is kept.
   */
  function CleanSpec(xs: seq<string>, reject: string -> bool): seq<string>
    decreases |xs|
  {
    if xs == [] then []
    else if reject(xs[0]) then (if |xs| == 1 then [] else [xs[1]] + CleanSpec(xs[2..], reject))
    else [xs[0]] + CleanSpec(xs[1..], reject)
  }

  /** One element examined by clean_text: is it rejected? */
  method Examine(text: string, nonsense: string -> bool) returns (rejected: bool)
    ensures rejected == Rejected(nonsense, text)
  {
    var sentence := Squeeze(text);
    if |sentence| < 7 {
      var chars := |sentence|;
      var difference := 8 - chars;
      var newText := sentence + Pad(difference);
      rejected := nonsense(newText);
    } else {
      rejected := nonsense(sentence);
    }
  }

  /** clean_text: enumerate the list, popping each element the classifier rejects. */
  method CleanText(xs: seq<string>, nonsense: string -> bool) returns (txt: seq<string>)
    ensures txt == CleanSpec(xs, Rejecter(nonsense))
  {
    ghost var reject := Rejecter(nonsense);
    txt := xs;
    var idx := 0;
    while idx < |txt|
      invariant idx <= |txt| + 1
      invariant idx <= |txt| ==> txt[..idx] + CleanSpec(txt[idx..], reject) == CleanSpec(xs, reject)
      invariant idx > |txt| ==> txt == CleanSpec(xs, reject)
      decreases |txt| + 1 - idx
    {
      var rejected := Examine(txt[idx], nonsense);
      assert rejected == reject(txt[idx]);
      CleanStep(txt, idx, reject);
      if rejected {
        txt := txt[..idx] + txt[idx + 1..];
      }
      idx := idx + 1;
    }
    if idx == |txt| {
      assert txt[..idx] == txt && txt[idx..] == [];
    }
  }

  /** One iteration of clean_text's loop, on the part already passed and the part still ahead. */
  lemma CleanStep(txt: seq<string>, idx: nat, reject: string -> bool)
    requires idx < |txt|
    ensures !reject(txt[idx]) ==>
              txt[..idx] + CleanSpec(txt[idx..], reject) == txt[..idx + 1] + CleanSpec(txt[idx + 1..], reject)
    ensures reject(txt[idx]) && idx + 1 < |txt| ==>
              txt[..idx] + CleanSpec(txt[idx..], reject) ==
              (txt[..idx] + txt[idx + 1..])[..idx + 1] + CleanSpec((txt[..idx] + txt[idx + 1..])[idx + 1..], reject)
    ensures reject(txt[idx]) && idx + 1 == |txt| ==>
              txt[..idx] + CleanSpec(txt[idx..], reject) == txt[..idx] + txt[idx + 1..]
  {
    assert txt[idx..] == [txt[idx]] + txt[idx + 1..];
    assert txt[..idx + 1] == txt[..idx] + [txt[idx]];
    var popped := txt[..idx] + txt[idx + 1..];
    if idx + 1 < |txt| {
      assert txt[idx + 1..] == [txt[idx + 1]] + txt[idx + 2..];
      assert popped[..idx + 1] == txt[..idx] + [txt[idx + 1]];
      assert popped[idx + 1..] == txt[idx + 2..];
    }
  }

  /** clean_text only removes elements; the ones it keeps are unchanged and in order. */
  lemma {:induction false} CleanOnlyRemoves(xs: seq<string>, reject: string -> bool)
    ensures IsSubseq(CleanSpec(xs, reject), xs)
    decreases |xs|
  {
    if xs == [] {
    } else if reject(xs[0]) {
      if |xs| == 1 {
      } else {
        CleanOnlyRemoves(xs[2..], reject);
        SubseqConsBoth(CleanSpec(xs[2..], reject), xs[2..], xs[1]);
        SubseqConsRight([xs[1]] + CleanSpec(xs[2..], reject), [xs[1]] + xs[2..], xs[0]);
        assert xs == [xs[0]] + ([xs[1]] + xs[2..]);
      }
    } else {
      CleanOnlyRemoves(xs[1..], reject);
      SubseqConsBoth(CleanSpec(xs[1..], reject), xs[1..], xs[0]);
      assert xs == [xs[0]] + xs[1..];
    }
  }

  /** Each pop is followed by an element kept unexamined, so at least half the list survives. */
  lemma {:induction false} CleanKeepsHalf(xs: seq<string>, reject: string -> bool)
    ensures 2 * |CleanSpec(xs, reject)| + 1 >= |xs|
    decreases |xs|
  {
    if xs != [] {
      if reject(xs[0]) && |xs| > 1 {
        CleanKeepsHalf(xs[2..], reject);
      } else if !reject(xs[0]) {
        CleanKeepsHalf(xs[1..], reject);
      }
    }
  }

  function Accepts(reject: string -> bool): string -> bool
  {
    s => !reject(s)
  }

  /**
   * When no two rejected elements are adjacent, clean_text removes exactly
   * the rejected elements; otherwise the second of two adjacent ones escapes
   * (see CleanSkipsAfterPop).
   */
  lemma {:induction false} CleanIsFilterWithoutAdjacentRejects(xs: seq<string>, reject: string -> bool)
    requires forall k :: 0 <= k < |xs| - 1 ==> !(reject(xs[k]) && reject(xs[k + 1]))
    ensures CleanSpec(xs, reject) == Filter(xs, Accepts(reject))
    decreases |xs|
  {
    if xs != [] {
      var keep := Accepts(reject);
      Cons(xs);
      FilterCons(xs[0], xs[1..], keep);
      if reject(xs[0]) && |xs| > 1 {
        var rest := xs[2..];
        assert forall k :: 0 <= k < |rest| - 1 ==> !(reject(rest[k]) && reject(rest[k + 1])) by {
          forall k | 0 <= k < |rest| - 1 ensures !(reject(rest[k]) && reject(rest[k + 1])) {
            assert rest[k] == xs[k + 2] && rest[k + 1] == xs[k + 3];
          }
        }
        CleanIsFilterWithoutAdjacentRejects(rest, reject);
        assert !reject(xs[1]);
        Cons(xs[1..]);
        FilterCons(xs[1], rest, keep);
      } else if !reject(xs[0]) {
        var rest := xs[1..];
        assert forall k :: 0 <= k < |rest| - 1 ==> !(reject(rest[k]) && reject(rest[k + 1])) by {
          forall k | 0 <= k < |rest| - 1 ensures !(reject(rest[k]) && reject(rest[k + 1])) {
            assert rest[k] == xs[k + 1] && rest[k + 1] == xs[k + 2];
          }
        }
        CleanIsFilterWithoutAdjacentRejects(rest, reject);
      }
    }
  }

  /** Of two adjacent rejected elements the second is kept, whatever follows. */
  lemma CleanSkipsAfterPop(a: string, b: string, rest: seq<string>, reject: string -> bool)
    requires reject(a) && reject(b)
    ensures CleanSpec([a, b] + rest, reject) == [b] + CleanSpec(rest, reject)
    ensures b !in Filter([a, b] + rest, Accepts(reject))
  {
    var xs := [a, b] + rest;
    assert xs[2..] == rest;
    FilterMember(xs, Accepts(reject), b);
  }

  // ---------------------------------------------------------------- is_sensible_string / filter_sensible_strings

  function Max(a: int, b: int): int
  {
    if a >= b then a else b
  }

  /** At least 40% of the tokens (and of at least one) are English words, as an integer inequality. */
  predicate IsSensible(o: Oracles, s: string)
  {
    var tokens := o.tokenize(s);
    5 * |Filter(tokens, o.isWord)| >= 2 * Max(|tokens|, 1)
  }

  lemma RatioThreshold(v: real, n: real)
    requires n > 0.0
    ensures v / n >= 0.4 <==> 5.0 * v >= 2.0 * n
  {
    assert (v / n) * n == v;
    if v / n >= 0.4 {
      assert v == (v / n) * n >= 0.4 * n;
    }
    if 5.0 * v >= 2.0 * n {
      assert v / n >= (0.4 * n) / n;
    }
  }

  /** The integer inequality is the ratio test valid / max(n, 1) >= 0.4 in exact arithmetic. */
  lemma SensibleIsRatio(o: Oracles, s: string)
    ensures var tokens := o.tokenize(s);
            IsSensible(o, s) <==> (|Filter(tokens, o.isWord)| as real) / (Max(|tokens|, 1) as real) >= 0.4
  {
    var tokens := o.tokenize(s);
    RatioThreshold(|Filter(tokens, o.isWord)| as real, Max(|tokens|, 1) as real);
  }

  /** A string without tokens is never sensible; one whose tokens are all words always is. */
  lemma SensibleBounds(o: Oracles, s: string)
    ensures o.tokenize(s) == [] ==> !IsSensible(o, s)
    ensures o.tokenize(s) != [] && (forall t :: t in o.tokenize(s) ==> o.isWord(t)) ==> IsSensible(o, s)
  {
    if forall t :: t in o.tokenize(s) ==> o.isWord(t) {
      FilterAll(o.tokenize(s), o.isWord);
    }
  }

  function SensibleTest(o: Oracles): string -> bool
  {
    s => IsSensible(o, s)
  }

  /** filter_sensible_strings. */
  function FilterSensible(o: Oracles, strings: seq<string>): seq<string>
  {
    Filter(strings, SensibleTest(o))
  }

  /** filter_sensible_strings keeps exactly the sensible strings, each as often as it occurs, in order. */
  lemma FilterSensibleExact(o: Oracles, strings: seq<string>, s: string)
    ensures s in FilterSensible(o, strings) <==> s in strings && IsSensible(o, s)
    ensures multiset(FilterSensible(o, strings))[s] == if IsSensible(o, s) then multiset(strings)[s] else 0
    ensures IsSubseq(FilterSensible(o, strings), strings)
  {
    FilterMember(strings, SensibleTest(o), s);
    FilterCount(strings, SensibleTest(o), s);
    FilterIsSubseq(strings, SensibleTest(o));
  }
}
