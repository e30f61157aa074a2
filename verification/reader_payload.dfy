/** The reader payload of a chapter page: the first capture of the regular
    expression `/ts_reader\.run\((.*?)\);/` matched against a script's text.
    Start positions are tried left to right; from each `ts_reader.run(` the
    lazy `(.*?)` grows one code point at a time, refusing line terminators,
    and stops at the first `);`. */
module ReaderPayload {
  import opened Wrappers
  import opened JsText

  /** The text `includes` looks for before a script is tried. */
  const Marker: string := "ts_reader.run"

  /** The literal part of the pattern before the capture. */
  const Call: string := "ts_reader.run("

  /** The literal part of the pattern after the capture. */
  const Close: string := ");"

  // ---------------------------------------------------------------------
  // The matcher, step by step as the regex engine runs it
  // ---------------------------------------------------------------------

  /** The capture is `s[p..q]` so far: stop at `);`, else take one more code point. */
  function PayloadTail(s: string, p: nat, q: nat): Option<string>
    requires p <= q <= |s|
    decreases |s| - q
  {
    if StartsAt(s, q, Close) then Some(s[p..q])
    else if q < |s| && !IsLineTerminator(s[q]) then PayloadTail(s, p, q + 1)
    else None
  }

  /** The match attempt that starts at index `i`. */
  function TryCallAt(s: string, i: nat): Option<string>
    requires i <= |s|
  {
    if StartsAt(s, i, Call) then PayloadTail(s, i + |Call|, i + |Call|) else None
  }

  /** The first successful attempt at index `i` or later. */
  function FindCallFrom(s: string, i: nat): Option<string>
    requires i <= |s|
    decreases |s| - i
  {
    match TryCallAt(s, i)
    case Some(c) => Some(c)
    case None => if i == |s| then None else FindCallFrom(s, i + 1)
  }

  /** `s.match(/ts_reader\.run\((.*?)\);/)`, reduced to its first capture. */
  function MatchPayload(s: string): Option<string> {
    FindCallFrom(s, 0)
  }

  // ---------------------------------------------------------------------
  // What the pattern means
  // ---------------------------------------------------------------------

  /** `q` is the first `);` at or after `from`, and no line terminator comes before it. */
  ghost predicate ClosesAt(s: string, from: int, q: int) {
    && 0 <= from <= q
    && StartsAt(s, q, Close)
    && forall k :: from <= k < q ==> !IsLineTerminator(s[k]) && !StartsAt(s, k, Close)
  }

  /** A `ts_reader.run(` at `i` whose payload ends at `q`. */
  ghost predicate CallClosesAt(s: string, i: int, q: int) {
    StartsAt(s, i, Call) && ClosesAt(s, i + |Call|, q)
  }

  /** The pattern can match starting at `i`. */
  ghost predicate CallMatchesAt(s: string, i: int) {
    exists q :: CallClosesAt(s, i, q)
  }

  lemma {:induction false} PayloadTailMeaning(s: string, p: nat, q0: nat)
    requires p <= q0 <= |s|
    ensures PayloadTail(s, p, q0).Some? <==> exists q :: ClosesAt(s, q0, q)
    ensures forall q :: ClosesAt(s, q0, q) ==> PayloadTail(s, p, q0) == Some(s[p..q])
    decreases |s| - q0
  {
    if StartsAt(s, q0, Close) {
      assert ClosesAt(s, q0, q0);
    } else if q0 < |s| && !IsLineTerminator(s[q0]) {
      PayloadTailMeaning(s, p, q0 + 1);
      forall q | ClosesAt(s, q0, q)
        ensures ClosesAt(s, q0 + 1, q)
      {
      }
      if PayloadTail(s, p, q0 + 1).Some? {
        var q :| ClosesAt(s, q0 + 1, q);
        assert ClosesAt(s, q0, q);
      }
    } else {
      assert forall q :: ClosesAt(s, q0, q) ==> q0 < q;
    }
  }

  lemma TryCallAtMeaning(s: string, i: nat)
    requires i <= |s|
    ensures TryCallAt(s, i).Some? <==> CallMatchesAt(s, i)
    ensures forall q :: CallClosesAt(s, i, q) ==> TryCallAt(s, i) == Some(s[i + |Call|..q])
  {
    if StartsAt(s, i, Call) {
      PayloadTailMeaning(s, i + |Call|, i + |Call|);
      if TryCallAt(s, i).Some? {
        var q :| ClosesAt(s, i + |Call|, q);
        assert CallClosesAt(s, i, q);
      }
    }
  }

  lemma {:induction false} FindCallFromMeaning(s: string, i: nat)
    requires i <= |s|
    ensures FindCallFrom(s, i).Some? <==> exists j :: i <= j <= |s| && CallMatchesAt(s, j)
    ensures forall j, q :: i <= j <= |s| && CallClosesAt(s, j, q) && (forall k :: i <= k < j ==> !CallMatchesAt(s, k)) ==>
      FindCallFrom(s, i) == Some(s[j + |Call|..q])
    decreases |s| - i
  {
    TryCallAtMeaning(s, i);
    if CallMatchesAt(s, i) {
      forall j, q | i <= j <= |s| && CallClosesAt(s, j, q) && (forall k :: i <= k < j ==> !CallMatchesAt(s, k))
        ensures FindCallFrom(s, i) == Some(s[j + |Call|..q])
      {
        assert !(i < j);
      }
    } else if i < |s| {
      FindCallFromMeaning(s, i + 1);
      forall j, q | i <= j <= |s| && CallClosesAt(s, j, q)
        ensures i + 1 <= j
      {
        assert CallMatchesAt(s, j);
      }
      if exists j :: i <= j <= |s| && CallMatchesAt(s, j) {
        var j :| i <= j <= |s| && CallMatchesAt(s, j);
        assert i + 1 <= j;
      }
    }
  }

  /** The matcher finds the leftmost `ts_reader.run(` that has a `);` after
      it on the same line and captures the text up to the nearest such `);`;
      it matches nothing when there is no such call. */
  lemma MatchPayloadMeaning(s: string)
    ensures MatchPayload(s).Some? <==> exists i :: 0 <= i <= |s| && CallMatchesAt(s, i)
    ensures forall i, q :: 0 <= i <= |s| && CallClosesAt(s, i, q) && (forall k :: 0 <= k < i ==> !CallMatchesAt(s, k)) ==>
      MatchPayload(s) == Some(s[i + |Call|..q])
  {
    FindCallFromMeaning(s, 0);
  }

  /** Any text the pattern matches passes the `includes('ts_reader.run')`
      test, so that test never turns away a script the pattern would accept. */
  lemma MatchImpliesMarker(s: string)
    requires MatchPayload(s).Some?
    ensures Includes(s, Marker)
  {
    MatchPayloadMeaning(s);
    var i :| 0 <= i <= |s| && CallMatchesAt(s, i);
    var q :| CallClosesAt(s, i, q);
    assert s[i..i + |Call|] == Call;
    assert Call[..|Marker|] == Marker;
    assert s[i..i + |Marker|] == s[i..i + |Call|][..|Marker|];
    assert StartsAt(s, i, Marker);
  }

  /** A payload written out as `ts_reader.run(<c>);` on one line, with no
      `);` inside it, is captured back exactly. */
  lemma PayloadRoundTrip(c: string)
    requires forall k :: 0 <= k < |c| ==> !IsLineTerminator(c[k])
    requires !Includes(c, Close)
    ensures MatchPayload(Call + c + Close) == Some(c)
  {
    var s := Call + c + Close;
    var q := |Call| + |c|;
    assert s[..|Call|] == Call;
    assert s[|Call|..q] == c;
    assert s[q..q + |Close|] == Close;
    forall k | |Call| <= k < q
      ensures !IsLineTerminator(s[k]) && !StartsAt(s, k, Close)
    {
      assert s[k] == c[k - |Call|];
      if k + 1 < q {
        assert s[k..k + |Close|] == c[k - |Call|..k - |Call| + |Close|];
        assert !StartsAt(c, k - |Call|, Close);
      } else {
        assert s[k + 1] == ')';
      }
    }
    assert CallClosesAt(s, 0, q);
    MatchPayloadMeaning(s);
  }
}
