/**
 * The pure helpers of the paste service: the paste id alphabet and generator,
 * the expiry arithmetic, the time- and view-expiry tests, and HTML escaping.
 *
 * Instants are integer milliseconds since the epoch. The wall clock is never
 * read here: the current instant is always a parameter.
 */
module Helpers {
  import opened Base

  // ---------------------------------------------------------------------------
  // Paste ids
  // ---------------------------------------------------------------------------

  /** Length of every generated paste id. */
  const IdLength: nat := 10

  /** The id alphabet: the ten digits, then the upper-case and lower-case letters. */
  const Alphabet: string := "0123456789ABCDEFGHIJKLMNOPQRSTUVWXYZabcdefghijklmnopqrstuvwxyz"

  /** A well-formed paste id: IdLength symbols of the alphabet. */
  predicate ValidId(id: string) {
    |id| == IdLength && forall k :: 0 <= k < |id| ==> id[k] in Alphabet
  }

  /** Random draws the id generator may consume: one alphabet position per id symbol. */
  predicate ValidDraws(draws: seq<nat>) {
    |draws| == IdLength && forall k :: 0 <= k < |draws| ==> draws[k] < |Alphabet|
  }

  /**
   * The id generator with its random source made a parameter: each draw picks
   * one symbol of the alphabet.
   */
  function IdFromDraws(draws: seq<nat>): (id: string)
    requires ValidDraws(draws)
    ensures ValidId(id)
    ensures forall k :: 0 <= k < IdLength ==> id[k] == Alphabet[draws[k]]
  {
    seq(IdLength, k requires 0 <= k < IdLength => Alphabet[draws[k]])
  }

  /** Some draws that produce a given well-formed id. */
  ghost function DrawsFor(id: string): (draws: seq<nat>)
    requires ValidId(id)
    ensures ValidDraws(draws)
    ensures forall k :: 0 <= k < IdLength ==> Alphabet[draws[k]] == id[k]
  {
    seq(IdLength, k requires 0 <= k < IdLength => var j :| 0 <= j < |Alphabet| && Alphabet[j] == id[k]; j)
  }

  /** The generator produces exactly the well-formed ids: 62 symbols, length 10. */
  lemma IdGeneratorRange(id: string)
    ensures |Alphabet| == 62 && IdLength == 10
    ensures ValidId(id) <==> exists draws :: ValidDraws(draws) && IdFromDraws(draws) == id
  {
    if ValidId(id) {
      var draws := DrawsFor(id);
      assert IdFromDraws(draws) == id;
    }
  }

  // ---------------------------------------------------------------------------
  // Expiry
  // ---------------------------------------------------------------------------

  /** JavaScript truthiness of an optional number: absent and 0 are falsy. */
  predicate Truthy(x: Option<int>) {
    x.Some? && x.value != 0
  }

  /** JavaScript `x || null` on an optional number: a falsy value becomes null. */
  function OrNull(x: Option<int>): (r: Option<int>)
    ensures r.Some? <==> Truthy(x)
    ensures r.Some? ==> r == x
  {
    if Truthy(x) then x else None
  }

  /**
   * The expiry instant for a time-to-live in seconds, counted from `now`:
   * no expiry when the TTL is absent or 0, else `now` plus the TTL in milliseconds.
   */
  function CalculateExpiry(ttlSeconds: Option<int>, now: int): (expiresAt: Option<int>)
    ensures expiresAt.None? <==> !Truthy(ttlSeconds)
    ensures expiresAt.Some? ==> expiresAt.value - now == ttlSeconds.value * 1000
    ensures expiresAt.Some? && ttlSeconds.value >= 1 ==> expiresAt.value > now
  {
    if !Truthy(ttlSeconds) then None else Some(now + ttlSeconds.value * 1000)
  }

  /** Time expiry: a paste expires exactly at its expiry instant, not after it. */
  predicate IsExpired(expiresAt: Option<int>, now: int) {
    if expiresAt.None? then false else now >= expiresAt.value
  }

  /** View expiry: a truthy view limit is used up once the views reach it. */
  predicate IsViewLimitExceeded(views: int, maxViews: Option<int>) {
    if !Truthy(maxViews) then false else views >= maxViews.value
  }

  /**
   * The time test has an inclusive boundary: at the expiry instant the paste is
   * expired, one millisecond earlier it is not; and without an expiry nothing expires.
   */
  lemma ExpiryBoundary(expiresAt: int, now: int)
    ensures IsExpired(Some(expiresAt), now) <==> expiresAt <= now
    ensures IsExpired(Some(expiresAt), expiresAt)
    ensures !IsExpired(Some(expiresAt), expiresAt - 1)
    ensures !IsExpired(None, now)
  {
  }

  /** Once time-expired, a paste stays expired at every later instant. */
  lemma ExpiredStaysExpired(expiresAt: Option<int>, now: int, later: int)
    requires now <= later && IsExpired(expiresAt, now)
    ensures IsExpired(expiresAt, later)
  {
  }

  /**
   * A paste with TTL `t` >= 1 created at `created` is readable by time until one
   * millisecond before `created + t * 1000`, and expired from that instant on.
   */
  lemma TtlBoundary(ttlSeconds: int, created: int, now: int)
    requires ttlSeconds >= 1
    ensures !IsExpired(CalculateExpiry(Some(ttlSeconds), created), created)
    ensures IsExpired(CalculateExpiry(Some(ttlSeconds), created), now)
        <==> now >= created + ttlSeconds * 1000
  {
  }

  /** The view test is off without a truthy limit, and otherwise compares views with it. */
  lemma ViewLimitCases(views: int, maxViews: Option<int>)
    ensures maxViews.None? ==> !IsViewLimitExceeded(views, maxViews)
    ensures maxViews == Some(0) ==> !IsViewLimitExceeded(views, maxViews)
    ensures maxViews.Some? && maxViews.value != 0 ==>
      (IsViewLimitExceeded(views, maxViews) <==> views >= maxViews.value)
  {
  }

  // ---------------------------------------------------------------------------
  // HTML escaping
  // ---------------------------------------------------------------------------

  /** `s.replace(/c/g, rep)`: every occurrence of the character c replaced by rep. */
  function ReplaceAll(s: string, c: char, rep: string): (r: string)
  {
    if s == [] then []
    else (if s[0] == c then rep else [s[0]]) + ReplaceAll(s[1..], c, rep)
  }

  /** The five-step replacement chain, ampersand first. */
  function EscapeHtml(text: string): (r: string)
  {
    var s1 := ReplaceAll(text, '&', "&amp;");
    var s2 := ReplaceAll(s1, '<', "&lt;");
    var s3 := ReplaceAll(s2, '>', "&gt;");
    var s4 := ReplaceAll(s3, '"', "&quot;");
    ReplaceAll(s4, '\'', "&#039;")
  }

  /** The characters escapeHtml rewrites. */
  predicate IsHtmlSpecial(c: char) {
    c == '&' || c == '<' || c == '>' || c == '"' || c == '\''
  }

  /** The entity a single character escapes to. */
  function EscapeChar(c: char): (r: string)
    ensures |r| >= 1
    ensures !IsHtmlSpecial(c) <==> r == [c]
    ensures IsHtmlSpecial(c) ==> |r| > 1
  {
    match c
    case '&' => "&amp;"
    case '<' => "&lt;"
    case '>' => "&gt;"
    case '"' => "&quot;"
    case '\'' => "&#039;"
    case _ => [c]
  }

  /** Reference definition: escape character by character. */
  function EscapeEach(s: string): (r: string)
  {
    if s == [] then [] else EscapeChar(s[0]) + EscapeEach(s[1..])
  }

  /** Replacement distributes over concatenation. */
  lemma {:induction false} ReplaceAllAppend(a: string, b: string, c: char, rep: string)
    ensures ReplaceAll(a + b, c, rep) == ReplaceAll(a, c, rep) + ReplaceAll(b, c, rep)
  {
    if a == [] {
      assert a + b == b;
    } else {
      assert (a + b)[1..] == a[1..] + b;
      ReplaceAllAppend(a[1..], b, c, rep);
    }
  }

  /** Replacing a character that does not occur changes nothing. */
  lemma {:induction false} ReplaceAllAbsent(s: string, c: char, rep: string)
    requires c !in s
    ensures ReplaceAll(s, c, rep) == s
  {
    if s != [] {
      assert s == [s[0]] + s[1..];
      ReplaceAllAbsent(s[1..], c, rep);
    }
  }

  /** One replacement step on a string that is the replaced character or lacks it. */
  lemma ReplaceStep(s: string, c: char, rep: string)
    requires s == [c] || c !in s
    ensures ReplaceAll(s, c, rep) == if s == [c] then rep else s
  {
    if s == [c] {
      assert s[1..] == [];
    } else {
      ReplaceAllAbsent(s, c, rep);
    }
  }

  /** The chain maps a one-character string to that character's entity. */
  lemma EscapeHtmlChar(x: char)
    ensures EscapeHtml([x]) == EscapeChar(x)
  {
    ReplaceStep([x], '&', "&amp;");
    if x == '&' {
      StepsAfter("&amp;", 1);
    } else {
      ReplaceStep([x], '<', "&lt;");
      if x == '<' {
        StepsAfter("&lt;", 2);
      } else {
        ReplaceStep([x], '>', "&gt;");
        if x == '>' {
          StepsAfter("&gt;", 3);
        } else {
          ReplaceStep([x], '"', "&quot;");
          if x == '"' {
            StepsAfter("&quot;", 4);
          } else {
            ReplaceStep([x], '\'', "&#039;");
          }
        }
      }
    }
  }

  /** The replacement steps after step `done` leave an entity alone. */
  lemma StepsAfter(e: string, done: nat)
    requires forall k :: 0 <= k < |e| ==> e[k] !in "<>\"'"
    ensures done <= 1 ==> ReplaceAll(e, '<', "&lt;") == e
    ensures done <= 2 ==> ReplaceAll(e, '>', "&gt;") == e
    ensures done <= 3 ==> ReplaceAll(e, '"', "&quot;") == e
    ensures ReplaceAll(e, '\'', "&#039;") == e
  {
    ReplaceAllAbsent(e, '<', "&lt;");
    ReplaceAllAbsent(e, '>', "&gt;");
    ReplaceAllAbsent(e, '"', "&quot;");
    ReplaceAllAbsent(e, '\'', "&#039;");
  }

  /** The chain distributes over concatenation, because each of its steps does. */
  lemma EscapeHtmlAppendChain(a: string, b: string)
    ensures EscapeHtml(a + b) == EscapeHtml(a) + EscapeHtml(b)
  {
    ReplaceAllAppend(a, b, '&', "&amp;");
    var a1, b1 := ReplaceAll(a, '&', "&amp;"), ReplaceAll(b, '&', "&amp;");
    ReplaceAllAppend(a1, b1, '<', "&lt;");
    var a2, b2 := ReplaceAll(a1, '<', "&lt;"), ReplaceAll(b1, '<', "&lt;");
    ReplaceAllAppend(a2, b2, '>', "&gt;");
    var a3, b3 := ReplaceAll(a2, '>', "&gt;"), ReplaceAll(b2, '>', "&gt;");
    ReplaceAllAppend(a3, b3, '"', "&quot;");
    var a4, b4 := ReplaceAll(a3, '"', "&quot;"), ReplaceAll(b3, '"', "&quot;");
    ReplaceAllAppend(a4, b4, '\'', "&#039;");
  }

  /**
   * Because the ampersand is replaced first, the chain of replacements equals
   * escaping each character on its own.
   */
  lemma {:induction false} EscapeHtmlIsPerCharacter(s: string)
    ensures EscapeHtml(s) == EscapeEach(s)
  {
    if s == [] {
    } else {
      assert s == [s[0]] + s[1..];
      EscapeHtmlAppendChain([s[0]], s[1..]);
      EscapeHtmlChar(s[0]);
      EscapeHtmlIsPerCharacter(s[1..]);
    }
  }

  /** Per-character escaping leaves no `<`, `>`, `"` or `'` behind. */
  lemma {:induction false} EscapeEachHasNoMarkup(s: string)
    ensures forall k :: 0 <= k < |EscapeEach(s)| ==> EscapeEach(s)[k] !in "<>\"'"
  {
    if s != [] {
      EscapeEachHasNoMarkup(s[1..]);
      var head, tail := EscapeChar(s[0]), EscapeEach(s[1..]);
      forall k | 0 <= k < |head + tail| ensures (head + tail)[k] !in "<>\"'" {
        if k >= |head| {
          assert (head + tail)[k] == tail[k - |head|];
        }
      }
    }
  }

  /** Escaped text contains none of `<`, `>`, `"` and `'`. */
  lemma EscapeHtmlHasNoMarkup(s: string)
    ensures forall k :: 0 <= k < |EscapeHtml(s)| ==> EscapeHtml(s)[k] !in "<>\"'"
  {
    EscapeHtmlIsPerCharacter(s);
    EscapeEachHasNoMarkup(s);
  }

  /** Text with none of the five special characters is left as it is. */
  lemma {:induction false} EscapeHtmlIdentity(s: string)
    requires forall k :: 0 <= k < |s| ==> !IsHtmlSpecial(s[k])
    ensures EscapeHtml(s) == s
  {
    ReplaceAllAbsent(s, '&', "&amp;");
    ReplaceAllAbsent(s, '<', "&lt;");
    ReplaceAllAbsent(s, '>', "&gt;");
    ReplaceAllAbsent(s, '"', "&quot;");
    ReplaceAllAbsent(s, '\'', "&#039;");
  }

  /** s begins with p. */
  predicate StartsWith(s: string, p: string) {
    |p| <= |s| && s[..|p|] == p
  }

  /**
   * The five entities read back as a browser reads them: the reverse of
   * escaping, so that the page shows the original text.
   */
  function DecodeEntities(s: string): (r: string)
    decreases |s|
  {
    if s == [] then []
    else if StartsWith(s, "&amp;") then "&" + DecodeEntities(s[5..])
    else if StartsWith(s, "&lt;") then "<" + DecodeEntities(s[4..])
    else if StartsWith(s, "&gt;") then ">" + DecodeEntities(s[4..])
    else if StartsWith(s, "&quot;") then "\"" + DecodeEntities(s[6..])
    else if StartsWith(s, "&#039;") then "'" + DecodeEntities(s[6..])
    else [s[0]] + DecodeEntities(s[1..])
  }

  lemma StartsWithAppend(p: string, rest: string)
    ensures StartsWith(p + rest, p) && (p + rest)[|p|..] == rest
  {
    assert (p + rest)[..|p|] == p;
  }

  lemma NotStartsWithAt(s: string, p: string, k: nat)
    requires k < |p| && k < |s| && s[k] != p[k]
    ensures !StartsWith(s, p)
  {
  }

  /** Decoding one escaped character followed by anything. */
  lemma DecodeEscapedChar(c: char, rest: string)
    ensures DecodeEntities(EscapeChar(c) + rest) == [c] + DecodeEntities(rest)
  {
    var e := EscapeChar(c);
    var s := e + rest;
    StartsWithAppend(e, rest);
    match c
    case '&' =>
    case '<' =>
      NotStartsWithAt(s, "&amp;", 1);
    case '>' =>
      NotStartsWithAt(s, "&amp;", 1);
      NotStartsWithAt(s, "&lt;", 1);
    case '"' =>
      NotStartsWithAt(s, "&amp;", 1);
      NotStartsWithAt(s, "&lt;", 1);
      NotStartsWithAt(s, "&gt;", 1);
    case '\'' =>
      NotStartsWithAt(s, "&amp;", 1);
      NotStartsWithAt(s, "&lt;", 1);
      NotStartsWithAt(s, "&gt;", 1);
      NotStartsWithAt(s, "&quot;", 1);
    case _ =>
      NotStartsWithAt(s, "&amp;", 0);
      NotStartsWithAt(s, "&lt;", 0);
      NotStartsWithAt(s, "&gt;", 0);
      NotStartsWithAt(s, "&quot;", 0);
      NotStartsWithAt(s, "&#039;", 0);
  }

  /** Escaping loses nothing: decoding the entities gives back the original text. */
  lemma {:induction false} EscapeHtmlRoundTrip(s: string)
    ensures DecodeEntities(EscapeHtml(s)) == s
  {
    EscapeHtmlIsPerCharacter(s);
    EscapeEachRoundTrip(s);
  }

  lemma {:induction false} EscapeEachRoundTrip(s: string)
    ensures DecodeEntities(EscapeEach(s)) == s
  {
    if s != [] {
      DecodeEscapedChar(s[0], EscapeEach(s[1..]));
      EscapeEachRoundTrip(s[1..]);
      assert s == [s[0]] + s[1..];
    }
  }

  /** Distinct texts escape to distinct markup. */
  lemma EscapeHtmlInjective(a: string, b: string)
    requires EscapeHtml(a) == EscapeHtml(b)
    ensures a == b
  {
    EscapeHtmlRoundTrip(a);
    EscapeHtmlRoundTrip(b);
  }
}
