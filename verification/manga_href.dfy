/** The series id of a search result: the first capture of the regular
    expression `/manga\/(.*?)\/?$/` matched against the card's link.
    JavaScript tries start positions left to right; at each one the lazy
    `(.*?)` grows one code point at a time, refusing line terminators, until
    an optional `/` followed by the end of the input completes the match. */
module MangaHref {
  import opened Wrappers
  import opened JsText
  import opened Dom

  /** The literal part of the pattern before the capture. */
  const Marker: string := "manga/"

  // ---------------------------------------------------------------------
  // The matcher, step by step as the regex engine runs it
  // ---------------------------------------------------------------------

  /** The capture is `s[p..q]` so far: try `\/?$`, else take one more code point. */
  function CaptureTail(s: string, p: nat, q: nat): Option<string>
    requires p <= q <= |s|
    decreases |s| - q
  {
    if q + 1 == |s| && s[q] == '/' then Some(s[p..q])
    else if q == |s| then Some(s[p..q])
    else if IsLineTerminator(s[q]) then None
    else CaptureTail(s, p, q + 1)
  }

  /** The match attempt that starts at index `i`. */
  function TryAt(s: string, i: nat): Option<string>
    requires i <= |s|
  {
    if StartsAt(s, i, Marker) then CaptureTail(s, i + |Marker|, i + |Marker|) else None
  }

  /** The first successful attempt at index `i` or later. */
  function SearchFrom(s: string, i: nat): Option<string>
    requires i <= |s|
    decreases |s| - i
  {
    match TryAt(s, i)
    case Some(c) => Some(c)
    case None => if i == |s| then None else SearchFrom(s, i + 1)
  }

  /** `s.match(/manga\/(.*?)\/?$/)`, reduced to its first capture. */
  function MatchId(s: string): Option<string> {
    SearchFrom(s, 0)
  }

  /** `manhwa_id` of a search card: the capture, or `''` when the link or its
      `href` is missing or the pattern does not match. */
  function ManhwaId(href: string): string {
    match MatchId(href)
    case Some(c) => c
    case None => ""
  }

  // ---------------------------------------------------------------------
  // What the pattern means
  // ---------------------------------------------------------------------

  /** The pattern can match starting at `i`: `manga/` is there and nothing
      after it is a line terminator. */
  ghost predicate MatchesAt(s: string, i: int) {
    StartsAt(s, i, Marker) && forall k :: i + |Marker| <= k < |s| ==> !IsLineTerminator(s[k])
  }

  /** `t` without its last character when that character is `/`. */
  function DropTrailingSlash(t: string): (r: string)
    ensures |t| > 0 && t[|t| - 1] == '/' ==> r + "/" == t
    ensures !(|t| > 0 && t[|t| - 1] == '/') ==> r == t
  {
    if |t| > 0 && t[|t| - 1] == '/' then t[..|t| - 1] else t
  }

  lemma {:induction false} CaptureTailMeaning(s: string, p: nat, q: nat)
    requires p <= q <= |s|
    requires q == |s| && p < q ==> s[q - 1] != '/'
    ensures CaptureTail(s, p, q) ==
      (if forall k :: q <= k < |s| ==> !IsLineTerminator(s[k])
       then Some(DropTrailingSlash(s[p..])) else None)
    decreases |s| - q
  {
    if q + 1 == |s| && s[q] == '/' {
      assert s[p..] == s[p..q] + "/";
    } else if q == |s| {
      assert s[p..q] == s[p..];
      assert DropTrailingSlash(s[p..]) == s[p..];
    } else if IsLineTerminator(s[q]) {
    } else {
      CaptureTailMeaning(s, p, q + 1);
    }
  }

  lemma TryAtMeaning(s: string, i: nat)
    requires i <= |s|
    ensures TryAt(s, i) == (if MatchesAt(s, i) then Some(DropTrailingSlash(s[i + |Marker|..])) else None)
  {
    if StartsAt(s, i, Marker) {
      CaptureTailMeaning(s, i + |Marker|, i + |Marker|);
    }
  }

  lemma {:induction false} SearchFromSucceeds(s: string, i: nat)
    requires i <= |s|
    ensures SearchFrom(s, i).Some? <==> exists j :: i <= j <= |s| && MatchesAt(s, j)
    decreases |s| - i
  {
    TryAtMeaning(s, i);
    if !MatchesAt(s, i) && i < |s| {
      SearchFromSucceeds(s, i + 1);
      if exists j :: i <= j <= |s| && MatchesAt(s, j) {
        var j :| i <= j <= |s| && MatchesAt(s, j);
        assert i + 1 <= j;
      }
    }
  }

  lemma {:induction false} SearchFromCaptures(s: string, i: nat, j: nat)
    requires i <= j <= |s| && MatchesAt(s, j)
    requires forall k :: i <= k < j ==> !MatchesAt(s, k)
    ensures SearchFrom(s, i) == Some(DropTrailingSlash(s[j + |Marker|..]))
    decreases j - i
  {
    TryAtMeaning(s, i);
    if i < j {
      assert !MatchesAt(s, i);
      SearchFromCaptures(s, i + 1, j);
    }
  }

  /** The matcher finds the leftmost `manga/` whose remainder holds no line
      terminator, and captures that remainder less at most one trailing `/`;
      it matches nothing when there is no such `manga/`. */
  lemma MatchIdMeaning(s: string)
    ensures MatchId(s).Some? <==> exists i :: 0 <= i <= |s| && MatchesAt(s, i)
    ensures forall i :: 0 <= i <= |s| && MatchesAt(s, i) && (forall k :: 0 <= k < i ==> !MatchesAt(s, k)) ==>
      MatchId(s) == Some(DropTrailingSlash(s[i + |Marker|..]))
  {
    SearchFromSucceeds(s, 0);
    forall i | 0 <= i <= |s| && MatchesAt(s, i) && (forall k :: 0 <= k < i ==> !MatchesAt(s, k))
      ensures MatchId(s) == Some(DropTrailingSlash(s[i + |Marker|..]))
    {
      SearchFromCaptures(s, 0, i);
    }
  }

  /** An `href` without `manga/` in it (the empty one of a missing link
      included) yields the id `''`. */
  lemma ManhwaIdEmptyWithoutMarker(href: string)
    requires !Includes(href, Marker)
    ensures ManhwaId(href) == ""
  {
    MatchIdMeaning(href);
  }

  /** The id is taken from the leftmost place a match can start. */
  lemma ManhwaIdAt(s: string, i: nat)
    requires i <= |s| && MatchesAt(s, i)
    requires forall k :: 0 <= k < i ==> !MatchesAt(s, k)
    ensures ManhwaId(s) == DropTrailingSlash(s[i + |Marker|..])
  {
    MatchIdMeaning(s);
  }

  /** For a one-line `href`: the id is what follows the first `manga/`, less
      one trailing `/`, and putting the pieces back together gives the `href`. */
  lemma ManhwaIdOfOneLineHref(href: string, i: nat)
    requires forall k :: 0 <= k < |href| ==> !IsLineTerminator(href[k])
    requires StartsAt(href, i, Marker)
    requires forall k :: 0 <= k < i ==> !StartsAt(href, k, Marker)
    ensures ManhwaId(href) == DropTrailingSlash(href[i + |Marker|..])
    ensures href == href[..i] + Marker + ManhwaId(href)
         || href == href[..i] + Marker + ManhwaId(href) + "/"
  {
    assert MatchesAt(href, i);
    ManhwaIdAt(href, i);
    var rest := href[i + |Marker|..];
    assert href == href[..i] + Marker + rest;
  }

  /** Building a link as `<base>manga/<id>/` (or without the final `/`, when
      the id does not end in one) and extracting the id gives the id back,
      provided the base holds no `manga/` and the id no line terminator. */
  lemma ManhwaIdRoundTrip(base: string, id: string)
    requires !Includes(base, Marker)
    requires forall k :: 0 <= k < |id| ==> !IsLineTerminator(id[k])
    ensures ManhwaId(base + Marker + id + "/") == id
    ensures (id == "" || id[|id| - 1] != '/') ==> ManhwaId(base + Marker + id) == id
  {
    assert ManhwaId(base + Marker + id + "/") == id by {
      var s := base + Marker + (id + "/");
      assert s == base + Marker + id + "/";
      BaseHoldsNoMatch(base, id + "/");
      assert s[|base|..|base| + |Marker|] == Marker;
      assert s[|base| + |Marker|..] == id + "/";
      ManhwaIdAt(s, |base|);
    }
    if id == "" || id[|id| - 1] != '/' {
      var s := base + Marker + id;
      BaseHoldsNoMatch(base, id);
      assert s[|base|..|base| + |Marker|] == Marker;
      assert s[|base| + |Marker|..] == id;
      ManhwaIdAt(s, |base|);
    }
  }

  /** No match can start inside a base free of `manga/`, whatever follows the marker. */
  lemma BaseHoldsNoMatch(base: string, rest: string)
    requires !Includes(base, Marker)
    ensures forall k :: 0 <= k < |base| ==> !MatchesAt(base + Marker + rest, k)
  {
    var s := base + Marker + rest;
    forall k | 0 <= k < |base|
      ensures !StartsAt(s, k, Marker)
    {
      if k + |Marker| <= |base| {
        assert s[k..k + |Marker|] == base[k..k + |Marker|];
        assert !StartsAt(base, k, Marker);
      } else {
        var j := k + |Marker| - 1 - |base|;
        assert 0 <= j < |Marker| - 1;
        assert s[k + |Marker| - 1] == Marker[j];
        assert Marker[j] != '/';
        assert s[k..k + |Marker|][|Marker| - 1] != Marker[|Marker| - 1];
      }
    }
  }
}
