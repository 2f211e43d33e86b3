/** `sanitizeUrl`: the rewrite an image URL from the CSV goes through before
    it is fetched. Its two regular expressions are written out as explicit
    string functions. */
module Sanitize {
  import opened Wrappers
  import opened Text

  predicate IsQuote(c: char) {
    c == '\'' || c == '"'
  }

  /** `url.replace(/['"]/g, '')`: every single and double quote dropped, the
      other characters kept in order. */
  function RemoveQuotes(s: string): (r: string)
    ensures |r| <= |s|
    ensures '\'' !in r && '"' !in r
    ensures forall c | c in r :: c in s
  {
    if |s| == 0 then ""
    else (if IsQuote(s[0]) then "" else [s[0]]) + RemoveQuotes(s[1..])
  }

  lemma {:induction false} RemoveQuotesConcat(x: string, y: string)
    ensures RemoveQuotes(x + y) == RemoveQuotes(x) + RemoveQuotes(y)
    decreases |x|
  {
    if |x| > 0 {
      assert (x + y)[0] == x[0];
      assert (x + y)[1..] == x[1..] + y;
      RemoveQuotesConcat(x[1..], y);
      var h := if IsQuote(x[0]) then "" else [x[0]];
      assert RemoveQuotes(x + y) == h + (RemoveQuotes(x[1..]) + RemoveQuotes(y));
    } else {
      assert x + y == y;
    }
  }

  lemma {:induction false} RemoveQuotesOfQuoteFree(s: string)
    requires '\'' !in s && '"' !in s
    ensures RemoveQuotes(s) == s
    decreases |s|
  {
    if |s| > 0 {
      RemoveQuotesOfQuoteFree(s[1..]);
    }
  }

  /** The end of the run of whitespace that starts at `p`. */
  function SpaceRunEnd(s: string, p: nat): (q: nat)
    requires p <= |s|
    ensures p <= q <= |s|
    ensures forall j | p <= j < q :: IsSpace(s[j])
    ensures q < |s| ==> !IsSpace(s[q])
    decreases |s| - p
  {
    if p < |s| && IsSpace(s[p]) then SpaceRunEnd(s, p + 1) else p
  }

  /** `/\s+alt=.*$/` matches starting at position `p`. The whitespace run
      must reach right up to `alt=` (an `a` is not whitespace, so
      backtracking cannot end the run earlier), and `.*$` must reach the end
      of the text, so no line terminator may follow `alt=`. */
  predicate AltMatchAt(s: string, p: nat) {
    && p < |s| && IsSpace(s[p])
    && var q := SpaceRunEnd(s, p);
       && q + 4 <= |s| && s[q..q + 4] == "alt="
       && forall j | q + 4 <= j < |s| :: !IsLineTerminator(s[j])
  }

  /** The leftmost position at or after `from` where the pattern matches. */
  function FirstAltMatch(s: string, from: nat): (r: Option<nat>)
    requires from <= |s|
    ensures r.Some? ==> from <= r.value < |s| && AltMatchAt(s, r.value)
    ensures r.Some? ==> forall j | from <= j < r.value :: !AltMatchAt(s, j)
    ensures r.None? ==> forall j | from <= j < |s| :: !AltMatchAt(s, j)
    decreases |s| - from
  {
    if from == |s| then None
    else if AltMatchAt(s, from) then Some(from)
    else FirstAltMatch(s, from + 1)
  }

  /** `s.replace(/\s+alt=.*$/, '')`: everything from the leftmost match on
      is dropped; without a match nothing is. */
  function CutAltSuffix(s: string): (r: string)
    ensures |r| <= |s| && r == s[..|r|]
    ensures |r| < |s| ==> AltMatchAt(s, |r|) && forall j | 0 <= j < |r| :: !AltMatchAt(s, j)
    ensures |r| == |s| ==> forall j | 0 <= j < |s| :: !AltMatchAt(s, j)
  {
    match FirstAltMatch(s, 0)
    case None => s
    case Some(p) => s[..p]
  }

  /** `sanitizeUrl`: quotes removed, a trailing ` alt=...` fragment cut,
      whitespace trimmed. The result holds no quote character and has no
      whitespace at either end. */
  function SanitizeUrl(url: string): (r: string)
    ensures '\'' !in r && '"' !in r
    ensures |r| > 0 ==> !IsSpace(r[0]) && !IsSpace(r[|r| - 1])
  {
    var unquoted := RemoveQuotes(url);
    var cut := CutAltSuffix(unquoted);
    TrimKeepsAbsence(cut, '\'');
    TrimKeepsAbsence(cut, '"');
    Trim(cut)
  }

  /** A URL without quotes or whitespace is fetched as it is. */
  lemma SanitizeCleanUrl(url: string)
    requires forall i | 0 <= i < |url| :: !IsQuote(url[i]) && !IsSpace(url[i])
    ensures SanitizeUrl(url) == url
  {
    RemoveQuotesOfQuoteFree(url);
  }

  /** A clean URL followed by an ` alt=...` fragment on the same line is
      fetched without the fragment, whatever the fragment holds. */
  lemma SanitizeDropsAltFragment(url: string, alt: string)
    requires forall i | 0 <= i < |url| :: !IsQuote(url[i]) && !IsSpace(url[i])
    requires forall i | 0 <= i < |alt| :: !IsLineTerminator(alt[i])
    ensures SanitizeUrl(url + " alt=" + alt) == url
  {
    var alt' := RemoveQuotes(alt);
    UnquotedFragment(url, alt);
    forall i | 0 <= i < |alt'|
      ensures !IsLineTerminator(alt'[i])
    {
      assert alt'[i] in alt;
    }
    CutAtFragment(url, alt');
  }

  lemma UnquotedFragment(url: string, alt: string)
    requires forall i | 0 <= i < |url| :: !IsQuote(url[i])
    ensures RemoveQuotes(url + " alt=" + alt) == url + " alt=" + RemoveQuotes(alt)
  {
    RemoveQuotesOfQuoteFree(url);
    RemoveQuotesOfQuoteFree(" alt=");
    RemoveQuotesConcat(url + " alt=", alt);
    RemoveQuotesConcat(url, " alt=");
  }

  /** In `url alt=rest`, the leftmost match is the blank before `alt=`. */
  lemma CutAtFragment(url: string, rest: string)
    requires forall i | 0 <= i < |url| :: !IsSpace(url[i])
    requires forall i | 0 <= i < |rest| :: !IsLineTerminator(rest[i])
    ensures CutAltSuffix(url + " alt=" + rest) == url
  {
    var s := url + " alt=" + rest;
    var p := |url|;
    assert SpaceRunEnd(s, p + 1) == p + 1;
    assert SpaceRunEnd(s, p) == p + 1;
    assert s[p + 1..p + 5] == "alt=";
    forall j | p + 5 <= j < |s|
      ensures !IsLineTerminator(s[j])
    {
      assert s[j] == rest[j - p - 5];
    }
    assert AltMatchAt(s, p);
    forall j | 0 <= j < p
      ensures !AltMatchAt(s, j)
    {
      assert s[j] == url[j];
    }
    assert s[..p] == url;
  }
}
