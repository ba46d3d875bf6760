/** Preprocessing of the generated quote text and its segmentation into
    per-clip captions (the main block of ved.py, lines 258-260). Text is a
    string of Unicode scalar values; the two `replace` calls and the `split`
    are Python's `str` operations with one-character patterns. */
module QuoteText {

  const Hyphen: char := '-'
  const EnDash: char := '\U{2013}'
  const Separator: char := ';'
  /** What both a hyphen and an en-dash are rewritten to. */
  const HyphenBreak: string := "-\n"

  /** Number of occurrences of `c` in `s` (Python's `s.count(c)`). */
  function Count(s: string, c: char): nat
  {
    if s == [] then 0 else (if s[0] == c then 1 else 0) + Count(s[1..], c)
  }

  /** Python's `s.replace(c, by)` for a one-character pattern `c`. */
  function Replace(s: string, c: char, repl: string): string
  {
    if s == [] then [] else (if s[0] == c then repl else [s[0]]) + Replace(s[1..], c, repl)
  }

  /** `text.replace('-', '-\n')` followed by `text.replace('–', '-\n')`. */
  function Preprocess(text: string): string
  {
    Replace(Replace(text, Hyphen, HyphenBreak), EnDash, HyphenBreak)
  }

  /** Python's `s.split(sep)` for a one-character separator: the maximal
      runs between separators, so always one more part than separators. */
  function Split(s: string, sep: char): (parts: seq<string>)
    ensures |parts| == Count(s, sep) + 1
    decreases |s|
  {
    if s == [] then [[]]
    else
      var rest := Split(s[1..], sep);
      if s[0] == sep then [[]] + rest
      else [[s[0]] + rest[0]] + rest[1..]
  }

  /** Python's `sep.join(parts)`. */
  function Join(parts: seq<string>, sep: char): string
  {
    if |parts| == 0 then []
    else if |parts| == 1 then parts[0]
    else parts[0] + [sep] + Join(parts[1..], sep)
  }

  /** The captions of the clips: `Preprocess(text).split(";")`. */
  function Segments(text: string): seq<string>
  {
    Split(Preprocess(text), Separator)
  }

  /** Every hyphen of `s` is immediately followed by a line break. */
  predicate HyphensBroken(s: string)
  {
    forall i :: 0 <= i < |s| && s[i] == Hyphen ==> i + 1 < |s| && s[i + 1] == '\n'
  }

  /** What one character of the input becomes after both replacements. */
  function BreakChar(x: char): string
  {
    if x == Hyphen || x == EnDash then HyphenBreak else [x]
  }

  /** Reference inverse of the preprocessing: drops the line break that
      follows each hyphen. */
  function Unbreak(s: string): string
  {
    if |s| >= 2 && s[0] == Hyphen && s[1] == '\n' then [Hyphen] + Unbreak(s[2..])
    else if s == [] then []
    else [s[0]] + Unbreak(s[1..])
  }

  // ---------------------------------------------------------------------
  // Replace

  lemma {:induction false} ReplaceAppend(a: string, b: string, c: char, repl: string)
    ensures Replace(a + b, c, repl) == Replace(a, c, repl) + Replace(b, c, repl)
  {
    if a == [] {
      assert a + b == b;
    } else {
      assert (a + b)[1..] == a[1..] + b;
      ReplaceAppend(a[1..], b, c, repl);
    }
  }

  lemma {:induction false} CountAppend(a: string, b: string, c: char)
    ensures Count(a + b, c) == Count(a, c) + Count(b, c)
  {
    if a == [] {
      assert a + b == b;
    } else {
      assert (a + b)[1..] == a[1..] + b;
      CountAppend(a[1..], b, c);
    }
  }

  /** Each occurrence of `c` grows into `by`; other characters are copied. */
  lemma {:induction false} ReplaceLength(s: string, c: char, repl: string)
    ensures |Replace(s, c, repl)| == |s| - Count(s, c) + Count(s, c) * |repl|
  {
    if s != [] {
      ReplaceLength(s[1..], c, repl);
    }
  }

  /** Every other character `d` keeps its occurrences and gains those that
      the replacement text brings in. */
  lemma {:induction false} ReplaceCountOther(s: string, c: char, repl: string, d: char)
    requires d != c
    ensures Count(Replace(s, c, repl), d) == Count(s, d) + Count(s, c) * Count(repl, d)
  {
    if s != [] {
      var rest := s[1..];
      var head := if s[0] == c then repl else [s[0]];
      CountAppend(head, Replace(rest, c, repl), d);
      ReplaceCountOther(rest, c, repl, d);
      var m := Count(repl, d);
      if s[0] == c {
        assert Count(s, c) * m == m + Count(rest, c) * m;
      } else {
        assert [s[0]][1..] == [];
      }
    }
  }

  // ---------------------------------------------------------------------
  // Preprocess

  /** The two replacements act character by character. */
  lemma PreprocessCons(x: char, rest: string)
    ensures Preprocess([x] + rest) == BreakChar(x) + Preprocess(rest)
  {
    ReplaceAppend([x], rest, Hyphen, HyphenBreak);
    var once := Replace([x], Hyphen, HyphenBreak);
    assert Replace([x] + rest, Hyphen, HyphenBreak) == once + Replace(rest, Hyphen, HyphenBreak);
    ReplaceAppend(once, Replace(rest, Hyphen, HyphenBreak), EnDash, HyphenBreak);
    if x == Hyphen {
      assert once == HyphenBreak;
      assert Replace(HyphenBreak, EnDash, HyphenBreak) == HyphenBreak by {
        assert HyphenBreak[1..][1..] == [];
      }
    } else {
      assert once == [x];
      assert [x][1..] == [];
    }
  }

  lemma HyphensBrokenAppend(a: string, b: string)
    requires HyphensBroken(a) && HyphensBroken(b)
    ensures HyphensBroken(a + b)
  {
  }

  /** After preprocessing, every hyphen is immediately followed by a line
      break, and no en-dash is left. */
  lemma {:induction false} PreprocessBreaksHyphens(text: string)
    ensures HyphensBroken(Preprocess(text))
    ensures EnDash !in Preprocess(text)
  {
    if text == [] {
    } else {
      assert text == [text[0]] + text[1..];
      PreprocessCons(text[0], text[1..]);
      PreprocessBreaksHyphens(text[1..]);
      HyphensBrokenAppend(BreakChar(text[0]), Preprocess(text[1..]));
    }
  }

  /** Round trip: dropping the inserted line breaks gives back the text with
      each en-dash turned into a hyphen. */
  lemma {:induction false} UnbreakPreprocess(text: string)
    ensures Unbreak(Preprocess(text)) == Replace(text, EnDash, [Hyphen])
  {
    if text != [] {
      var x, rest := text[0], text[1..];
      assert text == [x] + rest;
      PreprocessCons(x, rest);
      UnbreakPreprocess(rest);
      var p := Preprocess(text);
      if x == Hyphen || x == EnDash {
        assert p == HyphenBreak + Preprocess(rest);
        assert p[2..] == Preprocess(rest);
      } else {
        assert p == [x] + Preprocess(rest);
        assert p[1..] == Preprocess(rest);
      }
    }
  }

  /** Text with neither a hyphen nor an en-dash is left as it is. */
  lemma {:induction false} PreprocessIdentity(text: string)
    requires Hyphen !in text && EnDash !in text
    ensures Preprocess(text) == text
  {
    if text != [] {
      assert text == [text[0]] + text[1..];
      PreprocessCons(text[0], text[1..]);
      PreprocessIdentity(text[1..]);
    }
  }

  /** Preprocessing adds one character per hyphen and per en-dash, and does
      not touch the separators. */
  lemma PreprocessCounts(text: string)
    ensures |Preprocess(text)| == |text| + Count(text, Hyphen) + Count(text, EnDash)
    ensures Count(Preprocess(text), Separator) == Count(text, Separator)
  {
    var once := Replace(text, Hyphen, HyphenBreak);
    ReplaceLength(text, Hyphen, HyphenBreak);
    ReplaceLength(once, EnDash, HyphenBreak);
    ReplaceCountOther(text, Hyphen, HyphenBreak, EnDash);
    assert Count(HyphenBreak, EnDash) == 0 by { assert HyphenBreak[1..][1..] == []; }
    assert Count(HyphenBreak, Separator) == 0 by { assert HyphenBreak[1..][1..] == []; }
    ReplaceCountOther(text, Hyphen, HyphenBreak, Separator);
    ReplaceCountOther(once, EnDash, HyphenBreak, Separator);
  }

  // ---------------------------------------------------------------------
  // Split and Join

  /** No part of a split contains the separator. */
  lemma {:induction false} SplitPartsFree(s: string, sep: char)
    ensures forall k :: 0 <= k < |Split(s, sep)| ==> sep !in Split(s, sep)[k]
  {
    if s != [] {
      SplitPartsFree(s[1..], sep);
    }
  }

  /** Joining the parts of a split with the separator rebuilds the string. */
  lemma {:induction false} JoinSplit(s: string, sep: char)
    ensures Join(Split(s, sep), sep) == s
  {
    if s != [] {
      var rest := Split(s[1..], sep);
      JoinSplit(s[1..], sep);
      if s[0] == sep {
        assert ([[]] + rest)[1..] == rest;
      } else {
        var parts := [[s[0]] + rest[0]] + rest[1..];
        assert parts[1..] == rest[1..];
        if |rest| == 1 {
          assert Join(rest, sep) == rest[0];
        } else {
          assert Join(rest, sep) == rest[0] + [sep] + Join(rest[1..], sep);
        }
      }
    }
  }

  lemma {:induction false} SplitFree(p: string, sep: char)
    requires sep !in p
    ensures Split(p, sep) == [p]
  {
    if p != [] {
      assert p[0] != sep by { assert p[0] in p; }
      SplitFree(p[1..], sep);
      assert [p[0]] + p[1..] == p;
    }
  }

  lemma {:induction false} SplitAtSeparator(p: string, b: string, sep: char)
    requires sep !in p
    ensures Split(p + [sep] + b, sep) == [p] + Split(b, sep)
  {
    if p == [] {
      assert p + [sep] + b == [sep] + b;
      assert ([sep] + b)[1..] == b;
    } else {
      var s := p + [sep] + b;
      assert s[0] == p[0] && p[0] != sep by { assert p[0] in p; }
      assert s[1..] == p[1..] + [sep] + b;
      SplitAtSeparator(p[1..], b, sep);
      assert [p[0]] + p[1..] == p;
    }
  }

  /** Splitting a join of separator-free parts gives the parts back. */
  lemma {:induction false} SplitJoin(parts: seq<string>, sep: char)
    requires |parts| >= 1
    requires forall k :: 0 <= k < |parts| ==> sep !in parts[k]
    ensures Split(Join(parts, sep), sep) == parts
  {
    if |parts| == 1 {
      SplitFree(parts[0], sep);
    } else {
      SplitJoin(parts[1..], sep);
      SplitAtSeparator(parts[0], Join(parts[1..], sep), sep);
      assert [parts[0]] + parts[1..] == parts;
    }
  }

  /** The captions: one more than the `;` of the raw text (so at least one,
      even for empty text), none holding a `;`, and rejoined with `;` they
      give the preprocessed text back. */
  lemma SegmentsProperties(text: string)
    ensures |Segments(text)| == Count(text, Separator) + 1
    ensures forall k :: 0 <= k < |Segments(text)| ==> Separator !in Segments(text)[k]
    ensures Join(Segments(text), Separator) == Preprocess(text)
  {
    PreprocessCounts(text);
    SplitPartsFree(Preprocess(text), Separator);
    JoinSplit(Preprocess(text), Separator);
  }
}
