/**
 The chat side of the bot: `handle_words`, which turns a group message into
 requests for a random movie or series link, and `check_tokens`, which refuses
 to start the bot while a required token is unset. The link lookup itself
 (`random_movie_link`) is not part of this model; a request records which
 `type_m` it would be called with.
 */
module Dispatch {
  import opened Common

  /** The two `random_movie_link` calls: `type_m='movie'` and `type_m='tv-series'`. */
  datatype Request = Movie | TvSeries

  /** The wake word; a message without it is ignored. */
  const WakeWord: string := "ботя"
  const MovieWord: string := "кино"
  const SeriesWord: string := "сериал"

  /** Upper-case letters of the Basic Latin and Cyrillic blocks. */
  predicate IsUpper(c: char)
  {
    ('A' <= c <= 'Z') || ('\U{0400}' <= c <= '\U{042F}')
  }

  /** `str.lower` on one character, restricted to the letters `IsUpper` covers. */
  function LowerChar(c: char): (d: char)
    ensures !IsUpper(d)
    ensures !IsUpper(c) ==> d == c
    ensures IsUpper(c) ==> d != c
  {
    if 'A' <= c <= 'Z' then (c as int + 32) as char
    else if '\U{0410}' <= c <= '\U{042F}' then (c as int + 32) as char
    else if '\U{0400}' <= c <= '\U{040F}' then (c as int + 80) as char
    else c
  }

  /** `message.lower()`, character by character. */
  function Lower(s: string): (r: string)
    ensures |r| == |s|
    ensures forall i :: 0 <= i < |s| ==> r[i] == LowerChar(s[i])
  {
    seq(|s|, i requires 0 <= i < |s| => LowerChar(s[i]))
  }

  /** `w` occurs in `s` starting at index `i`. */
  predicate OccursAt(s: string, w: string, i: int)
  {
    0 <= i && i + |w| <= |s| && s[i..i + |w|] == w
  }

  /** Python's `w in s` for strings, as a statement about positions. */
  ghost predicate Contains(s: string, w: string)
  {
    exists i :: OccursAt(s, w, i)
  }

  /** Left-to-right scan for `w` from index `i` on. */
  function SearchFrom(s: string, w: string, i: nat): (found: bool)
    requires i <= |s|
    ensures found <==> exists j :: i <= j && OccursAt(s, w, j)
    decreases |s| - i
  {
    if i + |w| > |s| then false
    else if s[i..i + |w|] == w then assert OccursAt(s, w, i); true
    else SearchFrom(s, w, i + 1)
  }

  /** The substring test the handler uses. */
  function Search(s: string, w: string): (found: bool)
    ensures found <==> Contains(s, w)
  {
    SearchFrom(s, w, 0)
  }

  /**
   The requests one text message gives rise to, in the order the handler issues
   them. `lower` stands for `str.lower`; `Lower` below is the instance the bot's
   own alphabets need.
   */
  function HandleWords(message: string, lower: string -> string): (r: seq<Request>)
    ensures !Contains(lower(message), WakeWord) ==> r == []
    ensures Contains(lower(message), WakeWord) ==>
      (Movie in r <==> Contains(lower(message), MovieWord)) &&
      (TvSeries in r <==> Contains(lower(message), SeriesWord))
    ensures r == [] || r == [Movie] || r == [TvSeries] || r == [Movie, TvSeries]
  {
    var lowered := lower(message);
    if !Search(lowered, WakeWord) then []
    else
      (if Search(lowered, MovieWord) then [Movie] else []) +
      (if Search(lowered, SeriesWord) then [TvSeries] else [])
  }

  /**
   The `random_movie_link` calls actually made when the requests are issued in
   order and `raises(q)` says whether the call for `q` ends in an exception
   (its `finally` can raise when no poster was downloaded). The first call
   that raises is made, then the exception leaves the handler.
   */
  function Issued(requests: seq<Request>, raises: Request -> bool): (done: seq<Request>)
    ensures done <= requests
    ensures forall k :: 0 <= k < |done| - 1 ==> !raises(done[k])
    ensures |done| < |requests| ==> done != [] && raises(done[|done| - 1])
  {
    if requests == [] then []
    else if raises(requests[0]) then [requests[0]]
    else [requests[0]] + Issued(requests[1..], raises)
  }

  /** When no call raises, every request is issued. */
  lemma {:induction false} IssuedWithoutRaise(requests: seq<Request>, raises: Request -> bool)
    ensures (forall q :: !raises(q)) ==> Issued(requests, raises) == requests
  {
    if requests != [] {
      IssuedWithoutRaise(requests[1..], raises);
    }
  }

  /** The handler with failing calls: the requests of `HandleWords`, cut after the first call that raises. */
  function HandleWordsRaising(message: string, lower: string -> string, raises: Request -> bool): (done: seq<Request>)
    ensures done <= HandleWords(message, lower)
    ensures (forall q :: !raises(q)) ==> done == HandleWords(message, lower)
  {
    var requests := HandleWords(message, lower);
    IssuedWithoutRaise(requests, raises);
    Issued(requests, raises)
  }

  /** A movie call that raises ends the handler before the series request. */
  lemma MovieRaiseDropsSeries(message: string, lower: string -> string, raises: Request -> bool)
    requires Contains(lower(message), WakeWord) && Contains(lower(message), MovieWord)
    requires raises(Movie)
    ensures HandleWordsRaising(message, lower, raises) == [Movie]
  {
  }

  /** The series request is made exactly when the message asks for it and no movie call raised before it. */
  lemma SeriesIssuedIff(message: string, lower: string -> string, raises: Request -> bool)
    ensures TvSeries in HandleWordsRaising(message, lower, raises) <==>
      && Contains(lower(message), WakeWord)
      && Contains(lower(message), SeriesWord)
      && !(Contains(lower(message), MovieWord) && raises(Movie))
  {
  }

  /** A message that names the bot and both keywords asks for a movie, then a series. */
  lemma BothKeywords(message: string, lower: string -> string)
    requires Contains(lower(message), WakeWord)
    requires Contains(lower(message), MovieWord)
    requires Contains(lower(message), SeriesWord)
    ensures HandleWords(message, lower) == [Movie, TvSeries]
  {
  }

  /** For any idempotent `lower`, lower-casing a message first changes nothing. */
  lemma HandleWordsIgnoresCase(message: string, lower: string -> string)
    requires lower(lower(message)) == lower(message)
    ensures HandleWords(lower(message), lower) == HandleWords(message, lower)
  {
  }

  lemma {:induction false} LowerIdempotent(s: string)
    ensures Lower(Lower(s)) == Lower(s)
  {
    var l := Lower(s);
    forall i | 0 <= i < |s|
      ensures Lower(l)[i] == l[i]
    {
      assert !IsUpper(l[i]);
    }
  }

  /** With `Lower`, lower-casing a message before handing it over changes nothing. */
  lemma HandleWordsIgnoresCaseLower(message: string)
    ensures HandleWords(Lower(message), Lower) == HandleWords(message, Lower)
  {
    LowerIdempotent(message);
  }

  /** Lower-case letters of the Basic Latin and Cyrillic blocks: the images of `IsUpper` under `LowerChar`. */
  predicate IsLower(c: char)
  {
    ('a' <= c <= 'z') || ('\U{0430}' <= c <= '\U{045F}')
  }

  /** `str.upper` on one character, for the letters `IsLower` covers: the partner of `LowerChar`. */
  function UpperChar(c: char): (u: char)
    ensures IsLower(c) ==> IsUpper(u)
    ensures !IsLower(c) ==> u == c
  {
    if 'a' <= c <= 'z' then (c as int - 32) as char
    else if '\U{0430}' <= c <= '\U{044F}' then (c as int - 32) as char
    else if '\U{0450}' <= c <= '\U{045F}' then (c as int - 80) as char
    else c
  }

  /** `s.upper()`, character by character. */
  function Upper(s: string): (r: string)
    ensures |r| == |s|
    ensures forall i :: 0 <= i < |s| ==> r[i] == UpperChar(s[i])
  {
    seq(|s|, i requires 0 <= i < |s| => UpperChar(s[i]))
  }

  /** Lower-casing undoes upper-casing: every covered lower-case letter is the lower case of its capital, and the two case maps are inverse on the letters they cover. */
  lemma LowerUndoesUpper(c: char)
    ensures LowerChar(UpperChar(c)) == LowerChar(c)
    ensures IsLower(c) ==> LowerChar(UpperChar(c)) == c
    ensures IsUpper(c) ==> IsLower(LowerChar(c)) && UpperChar(LowerChar(c)) == c
  {
  }

  lemma {:induction false} LowerOfUpper(s: string)
    ensures Lower(Upper(s)) == Lower(s)
  {
    forall i | 0 <= i < |s|
      ensures Lower(Upper(s))[i] == Lower(s)[i]
    {
      LowerUndoesUpper(s[i]);
    }
  }

  /** Shouting a message does not change what it asks for: "БОТЯ, КИНО" acts like "ботя, кино". */
  lemma HandleWordsUpperCase(message: string)
    ensures HandleWords(Upper(message), Lower) == HandleWords(message, Lower)
  {
    LowerOfUpper(message);
  }

  /** The capitalised keywords lower-case to the words the handler looks for. */
  lemma LowerKeywords()
    ensures Lower("БОТЯ") == WakeWord && Lower("Ботя") == WakeWord
    ensures Lower("КИНО") == MovieWord && Lower("СЕРИАЛ") == SeriesWord
  {
  }

  lemma LowerAppend(a: string, b: string)
    ensures Lower(a + b) == Lower(a) + Lower(b)
  {
  }

  /** An occurrence survives text added on either side. */
  lemma ContainsExtends(s: string, t: string, w: string)
    requires Contains(s, w)
    ensures Contains(s + t, w) && Contains(t + s, w)
  {
    var i :| OccursAt(s, w, i);
    assert (s + t)[i..i + |w|] == s[i..i + |w|];
    assert OccursAt(s + t, w, i);
    assert (t + s)[|t| + i..|t| + i + |w|] == s[i..i + |w|];
    assert OccursAt(t + s, w, |t| + i);
  }

  /** Adding text to a message never withdraws a request it already made. */
  lemma HandleWordsMonotone(message: string, extra: string)
    ensures forall q :: q in HandleWords(message, Lower) ==> q in HandleWords(message + extra, Lower)
    ensures forall q :: q in HandleWords(message, Lower) ==> q in HandleWords(extra + message, Lower)
  {
    var m := Lower(message);
    var e := Lower(extra);
    LowerAppend(message, extra);
    LowerAppend(extra, message);
    if Contains(m, WakeWord) {
      ContainsExtends(m, e, WakeWord);
      if Contains(m, MovieWord) {
        ContainsExtends(m, e, MovieWord);
      }
      if Contains(m, SeriesWord) {
        ContainsExtends(m, e, SeriesWord);
      }
    }
  }

  /** The name of the first token whose value is `None`, if any: the one `check_tokens` reports. */
  function FirstMissing(tokens: seq<(string, Option<string>)>): (name: Option<string>)
    ensures name.None? <==> forall i :: 0 <= i < |tokens| ==> tokens[i].1.Some?
    ensures name.Some? ==> exists i :: 0 <= i < |tokens| && tokens[i].0 == name.value && tokens[i].1.None?
  {
    if tokens == [] then None
    else if tokens[0].1.None? then Some(tokens[0].0)
    else FirstMissing(tokens[1..])
  }

  /** The reported token is the first unset one: every entry before it is set. */
  lemma {:induction false} FirstMissingIsFirst(tokens: seq<(string, Option<string>)>)
    requires FirstMissing(tokens).Some?
    ensures exists i ::
      && 0 <= i < |tokens| && tokens[i].0 == FirstMissing(tokens).value && tokens[i].1.None?
      && forall j :: 0 <= j < i ==> tokens[j].1.Some?
  {
    if tokens[0].1.Some? {
      FirstMissingIsFirst(tokens[1..]);
      var i :| 0 <= i < |tokens[1..]| && tokens[1..][i].0 == FirstMissing(tokens[1..]).value && tokens[1..][i].1.None? &&
        forall j :: 0 <= j < i ==> tokens[1..][j].1.Some?;
      assert tokens[i + 1] == tokens[1..][i];
      forall j | 0 <= j < i + 1
        ensures tokens[j].1.Some?
      {
        if j > 0 {
          assert tokens[j] == tokens[1..][j - 1];
        }
      }
    } else {
      assert tokens[0].0 == FirstMissing(tokens).value;
    }
  }

  /**
   `check_tokens` over the token table, in table order: false at the first unset
   token (whose name the critical log line carries), true when all are set.
   */
  method CheckTokens(tokens: seq<(string, Option<string>)>) returns (ok: bool, missing: Option<string>)
    ensures ok <==> forall i :: 0 <= i < |tokens| ==> tokens[i].1.Some?
    ensures missing == FirstMissing(tokens)
    ensures ok <==> missing.None?
  {
    var i := 0;
    while i < |tokens|
      invariant 0 <= i <= |tokens|
      invariant forall j :: 0 <= j < i ==> tokens[j].1.Some?
      invariant FirstMissing(tokens) == FirstMissing(tokens[i..])
    {
      assert tokens[i..][1..] == tokens[i + 1..];
      if tokens[i].1.None? {
        return false, Some(tokens[i].0);
      }
      i := i + 1;
    }
    return true, None;
  }

  /** The bot's token table: the `TOKEN` environment variable alone. */
  function BotTokens(token: Option<string>): (table: seq<(string, Option<string>)>)
    ensures |table| == 1 && table[0].1 == token
  {
    [("TOKEN", token)]
  }

  /** The bot starts exactly when `TOKEN` is set, and otherwise reports `TOKEN` as missing. */
  lemma BotTokensChecked(token: Option<string>)
    ensures FirstMissing(BotTokens(token)).None? <==> token.Some?
    ensures token.None? ==> FirstMissing(BotTokens(token)) == Some("TOKEN")
  {
  }
}
