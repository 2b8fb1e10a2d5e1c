/**
 The caption clean-up of the VK photo checker: `re.sub(r'\[(club|id)\d+\|([^\]]+)\]', r'\2', text)`,
 followed by `result or None`. VK writes a mention of a user or community as
 `[id123|Name]` or `[club123|Name]`; the rewrite keeps only the display name.
 The regular expression is modelled as the scanner `re.sub` runs: at each position
 try to match a mention; on a match emit the display name and continue after it,
 otherwise copy one character and move on.
 */
module Mentions {
  import opened Common

  /** `\d`, restricted to ASCII digits. */
  predicate IsDigit(c: char)
  {
    '0' <= c <= '9'
  }

  /** End of the longest run of digits starting at `j` (what greedy `\d+` consumes). */
  function DigitEnd(s: string, j: nat): (e: nat)
    requires j <= |s|
    ensures j <= e <= |s|
    ensures e < |s| ==> !IsDigit(s[e])
    decreases |s| - j
  {
    if j == |s| || !IsDigit(s[j]) then j else DigitEnd(s, j + 1)
  }

  /** End of the longest run of characters other than `]` starting at `j` (greedy `[^\]]+`). */
  function NameEnd(s: string, j: nat): (e: nat)
    requires j <= |s|
    ensures j <= e <= |s|
    ensures e < |s| ==> s[e] == ']'
    decreases |s| - j
  {
    if j == |s| || s[j] == ']' then j else NameEnd(s, j + 1)
  }

  /** Characters `(club|id)` consumes at position `j`; 0 when neither alternative matches. */
  function KindLength(s: string, j: nat): (k: nat)
    requires j <= |s|
    ensures k == 0 || k == 2 || k == 4
    ensures j + k <= |s|
  {
    if j + 4 <= |s| && s[j] == 'c' && s[j + 1] == 'l' && s[j + 2] == 'u' && s[j + 3] == 'b' then 4
    else if j + 2 <= |s| && s[j] == 'i' && s[j + 1] == 'd' then 2
    else 0
  }

  /** A match of the pattern: where it ends (exclusive) and group 2, the display name. */
  datatype Match = Match(end: nat, name: string)

  /**
   Tries the pattern at position `i`. Backtracking cannot change the match:
   `\d+` must be followed by `|`, which is not a digit, and `[^\]]+` must be
   followed by `]`, which the class excludes, so both runs are maximal.
   */
  function MatchAt(s: string, i: nat): (m: Option<Match>)
    requires i <= |s|
    ensures m.Some? ==> 0 < |m.value.name| && i + |m.value.name| + 5 <= m.value.end <= |s|
    ensures i == |s| || s[i] != '[' ==> m.None?
  {
    if i == |s| || s[i] != '[' then None
    else
      var k := KindLength(s, i + 1);
      if k == 0 then None
      else
        var d := DigitEnd(s, i + 1 + k);
        if d == i + 1 + k || d == |s| || s[d] != '|' then None
        else
          var n := NameEnd(s, d + 1);
          if n == d + 1 || n == |s| then None
          else Some(Match(n + 1, s[d + 1 .. n]))
  }

  /**
   A match is exactly one mention written at `i`: `[`, a kind `club` or `id`, at
   least one digit, `|`, a non-empty name free of `]`, and `]`.
   */
  lemma MatchAtSound(s: string, i: nat)
    requires i <= |s| && MatchAt(s, i).Some?
    ensures var m := MatchAt(s, i).value;
      exists kind, digits ::
        && ValidMention(kind, digits, m.name)
        && m.end == i + |Mention(kind, digits, m.name)|
        && s[i .. m.end] == Mention(kind, digits, m.name)
  {
    assert i < |s| && s[i] == '[';
    var k := KindLength(s, i + 1);
    var d := DigitEnd(s, i + 1 + k);
    var n := NameEnd(s, d + 1);
    MatchAtShape(s, i, k, d, n);
    SoundFromParts(s, i, k, d, n, s[d + 1 .. n]);
  }

  /** The pieces the matcher finds at `i` spell a valid mention ending at `n + 1`. */
  lemma SoundFromParts(s: string, i: nat, k: nat, d: nat, n: nat, name: string)
    requires i < |s| && s[i] == '['
    requires 0 < k == KindLength(s, i + 1)
    requires i + 1 + k < d == DigitEnd(s, i + 1 + k) < |s| && s[d] == '|'
    requires d + 1 < n == NameEnd(s, d + 1) < |s|
    requires name == s[d + 1 .. n]
    ensures exists kind, digits ::
      && ValidMention(kind, digits, name)
      && n + 1 == i + |Mention(kind, digits, name)|
      && s[i .. n + 1] == Mention(kind, digits, name)
  {
    var kind, digits := s[i + 1 .. i + 1 + k], s[i + 1 + k .. d];
    PartsAreValid(s, i + 1, k, d, n);
    SliceAsMention(s, i, i + 1 + k, d, n);
    assert ValidMention(kind, digits, name) && s[i .. n + 1] == Mention(kind, digits, name);
  }

  /** Where the pieces of a match lie. */
  lemma MatchAtShape(s: string, i: nat, k: nat, d: nat, n: nat)
    requires i < |s| && MatchAt(s, i).Some?
    requires k == KindLength(s, i + 1) && d == DigitEnd(s, i + 1 + k) && n == NameEnd(s, d + 1)
    ensures 0 < k && i + 1 + k < d < |s| && s[d] == '|'
    ensures d + 1 < n < |s| && MatchAt(s, i).value == Match(n + 1, s[d + 1 .. n])
  {
  }

  /** The pieces the matcher consumed form a valid mention. */
  lemma PartsAreValid(s: string, j: nat, k: nat, d: nat, n: nat)
    requires j <= |s| && 0 < k == KindLength(s, j)
    requires j + k < d == DigitEnd(s, j + k) < |s|
    requires d + 1 < n == NameEnd(s, d + 1) < |s|
    ensures ValidMention(s[j .. j + k], s[j + k .. d], s[d + 1 .. n])
  {
    KindLengthSound(s, j);
    DigitEndRun(s, j + k);
    NameEndRun(s, d + 1);
    var digits := s[j + k .. d];
    forall p | 0 <= p < |digits|
      ensures IsDigit(digits[p])
    {
      assert digits[p] == s[j + k + p];
    }
    var name := s[d + 1 .. n];
    forall p | 0 <= p < |name|
      ensures name[p] != ']'
    {
      assert name[p] == s[d + 1 + p];
    }
  }

  /** The text of a mention: `[` kind digits `|` name `]`. */
  function Mention(kind: string, digits: string, name: string): (text: string)
    ensures |text| == |kind| + |digits| + |name| + 3
    ensures text[0] == '[' && text[|text| - 1] == ']'
  {
    "[" + kind + digits + "|" + name + "]"
  }

  /** The parts of a mention the pattern accepts. */
  predicate ValidMention(kind: string, digits: string, name: string)
  {
    && (kind == "club" || kind == "id")
    && |digits| > 0 && (forall p :: 0 <= p < |digits| ==> IsDigit(digits[p]))
    && |name| > 0 && (forall p :: 0 <= p < |name| ==> name[p] != ']')
  }

  /** The scan from position `i` on; only a `[` can start a mention. */
  function RewriteFrom(s: string, i: nat): (r: string)
    requires i <= |s|
    ensures |r| <= |s| - i
    ensures r == [] <==> i == |s|
    decreases |s| - i, 1
  {
    if i == |s| then []
    else if s[i] != '[' then [s[i]] + RewriteFrom(s, i + 1)
    else RewriteAtBracket(s, i)
  }

  /** The scan from a `[` at position `i`: a mention gives its name, anything else the `[` itself. */
  function RewriteAtBracket(s: string, i: nat): (r: string)
    requires i < |s| && s[i] == '['
    ensures 0 < |r| <= |s| - i
    decreases |s| - i, 0
  {
    match MatchAt(s, i)
    case Some(m) => m.name + RewriteFrom(s, m.end)
    case None => [s[i]] + RewriteFrom(s, i + 1)
  }

  /** The `re.sub` result. It is never longer than the input and is empty only for an empty input. */
  function Rewrite(s: string): (r: string)
    ensures |r| <= |s|
    ensures r == [] <==> s == []
  {
    RewriteFrom(s, 0)
  }

  /** `caption = result or None`: `None` only for an empty text, since every mention leaves a non-empty name. */
  function Caption(text: string): (c: Option<string>)
    ensures c == None <==> text == []
    ensures c.Some? ==> c.value == Rewrite(text)
  {
    var result := Rewrite(text);
    if result == [] then None else Some(result)
  }

  /** No position of `s` at or after `i` starts a mention. */
  predicate MentionFreeFrom(s: string, i: nat)
  {
    forall p :: i <= p < |s| ==> MatchAt(s, p).None?
  }

  /** No position of `s` starts a mention. */
  predicate MentionFree(s: string)
  {
    MentionFreeFrom(s, 0)
  }

  /** Where no mention starts, the character is copied. */
  lemma RewriteFromCopiesChar(s: string, i: nat)
    requires i < |s| && MatchAt(s, i).None?
    ensures RewriteFrom(s, i) == [s[i]] + RewriteFrom(s, i + 1)
  {
  }

  /** Where a mention starts, the output is shorter than the rest of the input. */
  lemma RewriteFromShrinksAtMention(s: string, i: nat)
    requires i < |s| && MatchAt(s, i).Some?
    ensures |RewriteFrom(s, i)| < |s| - i
  {
    var m := MatchAt(s, i).value;
    assert RewriteFrom(s, i) == RewriteAtBracket(s, i) == m.name + RewriteFrom(s, m.end);
  }

  lemma MentionFreeFromStep(s: string, i: nat)
    requires i < |s|
    ensures MentionFreeFrom(s, i) <==> MatchAt(s, i).None? && MentionFreeFrom(s, i + 1)
  {
  }

  lemma {:induction false} RewriteFromUnchangedIff(s: string, i: nat)
    requires i <= |s|
    ensures RewriteFrom(s, i) == s[i..] <==> MentionFreeFrom(s, i)
    decreases |s| - i
  {
    if i < |s| {
      if MatchAt(s, i).Some? {
        UnchangedFailsAtMention(s, i);
      } else {
        RewriteFromUnchangedIff(s, i + 1);
        UnchangedStepPlain(s, i);
        MentionFreeFromStep(s, i);
      }
    } else {
      assert s[i..] == [];
    }
  }

  /** A mention at `i` both shortens the output and breaks mention-freedom. */
  lemma UnchangedFailsAtMention(s: string, i: nat)
    requires i < |s| && MatchAt(s, i).Some?
    ensures RewriteFrom(s, i) != s[i..] && !MentionFreeFrom(s, i)
  {
    RewriteFromShrinksAtMention(s, i);
  }

  /** Past a plain character at `i`, the output equals the input exactly when it does one position on. */
  lemma UnchangedStepPlain(s: string, i: nat)
    requires i < |s| && MatchAt(s, i).None?
    ensures RewriteFrom(s, i) == s[i..] <==> RewriteFrom(s, i + 1) == s[i + 1..]
  {
    RewriteFromCopiesChar(s, i);
    assert s[i..] == [s[i]] + s[i + 1..];
    if RewriteFrom(s, i) == s[i..] {
      assert RewriteFrom(s, i + 1) == RewriteFrom(s, i)[1..];
    }
  }

  /** Text without a mention comes out unchanged, and only such text does. */
  lemma RewriteUnchangedIff(s: string)
    ensures Rewrite(s) == s <==> MentionFree(s)
  {
    RewriteFromUnchangedIff(s, 0);
    assert s[0..] == s;
  }

  /** A stretch without `[` is copied as it is. */
  lemma {:induction false} RewriteCopiesPlainStretch(s: string, i: nat, j: nat)
    requires i <= j <= |s|
    requires forall p :: i <= p < j ==> s[p] != '['
    ensures RewriteFrom(s, i) == s[i..j] + RewriteFrom(s, j)
    decreases j - i
  {
    if i < j {
      RewriteCopiesPlainStretch(s, i + 1, j);
      RewriteFromCopiesChar(s, i);
      assert s[i..j] == [s[i]] + s[i + 1..j];
    } else {
      assert s[i..j] == [];
    }
  }

  /** A mention written at position `i` of `s` is matched there, with its display name. */
  lemma MatchAtAccepts(s: string, i: nat, kind: string, digits: string, name: string)
    requires ValidMention(kind, digits, name)
    requires i + |Mention(kind, digits, name)| <= |s|
    requires s[i .. i + |Mention(kind, digits, name)|] == Mention(kind, digits, name)
    ensures MatchAt(s, i) == Some(Match(i + |Mention(kind, digits, name)|, name))
  {
    var k := |kind|;
    var bar := i + 1 + k + |digits|;
    var close := bar + 1 + |name|;
    MentionLayout(s, i, kind, digits, name);
    KindLengthAt(s, i + 1, kind);
    DigitEndOver(s, i + 1 + k, digits);
    NameEndOver(s, bar + 1, name);
    MatchAtFromParts(s, i, k, bar, close);
  }

  /** `\d+` run over a written digit string stops right after it. */
  lemma DigitEndOver(s: string, j: nat, digits: string)
    requires j + |digits| < |s| && !IsDigit(s[j + |digits|])
    requires forall p :: 0 <= p < |digits| ==> s[j + p] == digits[p]
    requires forall p :: 0 <= p < |digits| ==> IsDigit(digits[p])
    ensures DigitEnd(s, j) == j + |digits|
  {
    forall p | j <= p < j + |digits|
      ensures IsDigit(s[p])
    {
      assert s[p] == digits[p - j];
    }
    DigitEndAt(s, j, j + |digits|);
  }

  /** `[^\]]+` run over a written name stops right after it. */
  lemma NameEndOver(s: string, j: nat, name: string)
    requires j + |name| < |s| && s[j + |name|] == ']'
    requires forall p :: 0 <= p < |name| ==> s[j + p] == name[p]
    requires forall p :: 0 <= p < |name| ==> name[p] != ']'
    ensures NameEnd(s, j) == j + |name|
  {
    forall p | j <= p < j + |name|
      ensures s[p] != ']'
    {
      assert s[p] == name[p - j];
    }
    NameEndAt(s, j, j + |name|);
  }

  /** Where each part of a mention written at position `i` lies in `s`. */
  lemma MentionLayout(s: string, i: nat, kind: string, digits: string, name: string)
    requires i + |Mention(kind, digits, name)| <= |s|
    requires s[i .. i + |Mention(kind, digits, name)|] == Mention(kind, digits, name)
    ensures |Mention(kind, digits, name)| == |kind| + |digits| + |name| + 3
    ensures s[i] == '['
    ensures forall p :: 0 <= p < |kind| ==> s[i + 1 + p] == kind[p]
    ensures forall p :: 0 <= p < |digits| ==> s[i + 1 + |kind| + p] == digits[p]
    ensures s[i + 1 + |kind| + |digits|] == '|'
    ensures forall p :: 0 <= p < |name| ==> s[i + 2 + |kind| + |digits| + p] == name[p]
    ensures s[i + 2 + |kind| + |digits| + |name|] == ']'
    ensures s[i + 2 + |kind| + |digits| .. i + 2 + |kind| + |digits| + |name|] == name
  {
    var m := Mention(kind, digits, name);
    var a := "[" + kind;
    var c := a + digits + "|";
    var d := c + name;
    assert m == d + "]";
    forall q | 0 <= q < |m|
      ensures s[i + q] == m[q]
    {
      assert s[i .. i + |m|][q] == s[i + q];
    }
    forall p | 0 <= p < |kind|
      ensures s[i + 1 + p] == kind[p]
    {
      assert m[1 + p] == d[1 + p] == c[1 + p] == a[1 + p];
    }
    forall p | 0 <= p < |digits|
      ensures s[i + 1 + |kind| + p] == digits[p]
    {
      assert m[1 + |kind| + p] == d[1 + |kind| + p] == c[1 + |kind| + p];
    }
    assert m[|c| - 1] == d[|c| - 1] == c[|c| - 1] == '|';
    var b := |c|;
    forall p | 0 <= p < |name|
      ensures s[i + b + p] == name[p]
    {
      assert m[b + p] == d[b + p];
    }
    assert m[|d|] == ']';
    assert s[i + b .. i + b + |name|] == name;
  }

  lemma KindLengthAt(s: string, j: nat, kind: string)
    requires kind == "club" || kind == "id"
    requires j + |kind| <= |s|
    requires forall p :: 0 <= p < |kind| ==> s[j + p] == kind[p]
    ensures KindLength(s, j) == |kind|
  {
    assert s[j] == kind[0] && s[j + 1] == kind[1];
    if kind == "club" {
      assert s[j + 2] == kind[2] && s[j + 3] == kind[3];
    }
  }

  /** The pattern as a sequence of steps: `[`, a kind, digits up to `|`, a name up to `]`. */
  lemma MatchAtFromParts(s: string, i: nat, k: nat, bar: nat, close: nat)
    requires i < |s| && s[i] == '['
    requires 0 < k == KindLength(s, i + 1)
    requires i + 1 + k < bar == DigitEnd(s, i + 1 + k) < |s| && s[bar] == '|'
    requires bar + 1 < close == NameEnd(s, bar + 1) < |s|
    ensures MatchAt(s, i) == Some(Match(close + 1, s[bar + 1 .. close]))
  {
  }

  /** `\d+` stops exactly at the first non-digit. */
  lemma {:induction false} DigitEndAt(s: string, j: nat, e: nat)
    requires j <= e < |s|
    requires forall p :: j <= p < e ==> IsDigit(s[p])
    requires !IsDigit(s[e])
    ensures DigitEnd(s, j) == e
    decreases e - j
  {
    if j < e {
      DigitEndAt(s, j + 1, e);
    }
  }

  /** `[^\]]+` stops exactly at the first `]`. */
  lemma {:induction false} NameEndAt(s: string, j: nat, e: nat)
    requires j <= e < |s|
    requires forall p :: j <= p < e ==> s[p] != ']'
    requires s[e] == ']'
    ensures NameEnd(s, j) == e
    decreases e - j
  {
    if j < e {
      NameEndAt(s, j + 1, e);
    }
  }

  /** Everything `[^\]]+` consumes differs from `]`. */
  lemma {:induction false} NameEndRun(s: string, j: nat)
    requires j <= |s|
    ensures forall p :: j <= p < NameEnd(s, j) ==> s[p] != ']'
    decreases |s| - j
  {
    if j < |s| && s[j] != ']' {
      NameEndRun(s, j + 1);
    }
  }

  /** Everything `\d+` consumes is a digit. */
  lemma {:induction false} DigitEndRun(s: string, j: nat)
    requires j <= |s|
    ensures forall p :: j <= p < DigitEnd(s, j) ==> IsDigit(s[p])
    decreases |s| - j
  {
    if j < |s| && IsDigit(s[j]) {
      DigitEndRun(s, j + 1);
    }
  }

  /** What `(club|id)` consumes is one of its two alternatives. */
  lemma KindLengthSound(s: string, j: nat)
    requires j <= |s| && KindLength(s, j) > 0
    ensures s[j .. j + KindLength(s, j)] == "club" || s[j .. j + KindLength(s, j)] == "id"
  {
  }

  /** Text cut at `[`, the kind end `a`, the bar `b` and the closing `e` spells a mention. */
  lemma SliceAsMention(s: string, i: nat, a: nat, b: nat, e: nat)
    requires i < a <= b < e < |s|
    requires s[i] == '[' && s[b] == '|' && s[e] == ']'
    ensures s[i .. e + 1] == Mention(s[i + 1 .. a], s[a .. b], s[b + 1 .. e])
    ensures |Mention(s[i + 1 .. a], s[a .. b], s[b + 1 .. e])| == e + 1 - i
  {
    var m := Mention(s[i + 1 .. a], s[a .. b], s[b + 1 .. e]);
    assert |m| == e + 1 - i;
    forall q | 0 <= q < |m|
      ensures s[i .. e + 1][q] == m[q]
    {
      if q == 0 {
      } else if q < a - i {
        assert m[q] == s[i + 1 .. a][q - 1];
      } else if q < b - i {
        assert m[q] == s[a .. b][q - (a - i)];
      } else if q == b - i {
      } else if q < e - i {
        assert m[q] == s[b + 1 .. e][q - (b + 1 - i)];
      }
    }
  }

  /** Each mention is replaced by its display name and scanning resumes right after it. */
  lemma MentionReplacedByName(s: string, i: nat, kind: string, digits: string, name: string)
    requires ValidMention(kind, digits, name)
    requires i + |Mention(kind, digits, name)| <= |s|
    requires s[i .. i + |Mention(kind, digits, name)|] == Mention(kind, digits, name)
    ensures RewriteFrom(s, i) == name + RewriteFrom(s, i + |Mention(kind, digits, name)|)
  {
    MatchAtAccepts(s, i, kind, digits, name);
    assert s[i] == s[i .. i + |Mention(kind, digits, name)|][0];
    assert RewriteFrom(s, i) == RewriteAtBracket(s, i);
  }

  /** Text up to the first mention is copied, the mention becomes its name, and scanning resumes after it. */
  lemma RewriteFirstMention(s: string, i: nat, kind: string, digits: string, name: string)
    requires ValidMention(kind, digits, name)
    requires i + |Mention(kind, digits, name)| <= |s|
    requires forall p :: 0 <= p < i ==> s[p] != '['
    requires s[i .. i + |Mention(kind, digits, name)|] == Mention(kind, digits, name)
    ensures Rewrite(s) == s[..i] + name + RewriteFrom(s, i + |Mention(kind, digits, name)|)
  {
    var after := RewriteFrom(s, i + |Mention(kind, digits, name)|);
    RewriteCopiesPlainStretch(s, 0, i);
    MentionReplacedByName(s, i, kind, digits, name);
    assert s[0..i] == s[..i];
    assert RewriteFrom(s, 0) == s[..i] + (name + after);
  }

  /** A caption made of plain text, one mention and more text. */
  lemma CaptionOfPlainTextAndMention(plain: string, kind: string, digits: string, name: string, rest: string)
    requires forall p :: 0 <= p < |plain| ==> plain[p] != '['
    requires ValidMention(kind, digits, name)
    ensures var s := plain + Mention(kind, digits, name) + rest;
      Caption(s) == Some(plain + name + RewriteFrom(s, |s| - |rest|))
  {
    var m := Mention(kind, digits, name);
    var s := plain + m + rest;
    var i := |plain|;
    assert s[..i] == plain;
    assert s[i .. i + |m|] == m;
    assert forall p :: 0 <= p < i ==> s[p] != '[' by {
      assert forall p :: 0 <= p < i ==> s[p] == plain[p];
    }
    RewriteFirstMention(s, i, kind, digits, name);
  }
}
