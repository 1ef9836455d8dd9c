/** Which scopes a client-credentials request is granted. */
module Scopes {
  import opened Wrappers
  import opened ScopeText

  datatype ClientCredentialsError =
    | UnsupportedGrantType(message: string)
    | InvalidClient
    | InvalidScope(scope: string)
    | MintFailed(message: string)

  ghost predicate Distinct(xs: seq<string>) {
    forall i, j | 0 <= i < j < |xs| :: xs[i] != xs[j]
  }

  /** The members in the order of their first occurrence, once each. */
  function FirstOccurrences(xs: seq<string>): seq<string> {
    if xs == [] then []
    else
      var r := FirstOccurrences(xs[..|xs| - 1]);
      if xs[|xs| - 1] in r then r else r + [xs[|xs| - 1]]
  }

  /** The first word that is not granted. */
  function FirstRefused(words: seq<string>, granted: seq<string>): Option<string> {
    if words == [] then None
    else if words[0] in granted then FirstRefused(words[1..], granted)
    else Some(words[0])
  }

  /** Whether the request names scopes at all. */
  predicate Explicit(requested: Option<string>) {
    requested.Some? && !Blank(requested.value)
  }

  /** Every requested word, once, in order; or all that is granted when none is named. */
  function Restrict(requested: Option<string>, granted: seq<string>): Result<seq<string>, ClientCredentialsError> {
    if !Explicit(requested) then Ok(granted)
    else
      var words := Words(requested.value);
      match FirstRefused(words, granted)
      case Some(w) => Err(InvalidScope(w))
      case None => Ok(FirstOccurrences(words))
  }

  lemma {:induction false} RefusedIsTheFirst(words: seq<string>, granted: seq<string>)
    ensures FirstRefused(words, granted).None? <==> forall i | 0 <= i < |words| :: words[i] in granted
    ensures forall i | 0 <= i < |words| && words[i] !in granted && (forall j | 0 <= j < i :: words[j] in granted) ::
              FirstRefused(words, granted) == Some(words[i])
  {
    if words != [] {
      RefusedIsTheFirst(words[1..], granted);
      assert forall i | 1 <= i < |words| :: words[i] == words[1..][i - 1];
      assert forall i | 0 <= i < |words| - 1 :: words[1..][i] == words[i + 1];
    }
  }

  /** Position `i` holds the first occurrence of its member. */
  ghost predicate IsFirst(xs: seq<string>, i: nat) {
    i < |xs| && forall j | 0 <= j < i :: xs[j] != xs[i]
  }

  /** `at` takes each position of `r` to the first occurrence of the same member in `xs`, keeping the order. */
  ghost predicate PicksFirsts(xs: seq<string>, r: seq<string>, at: seq<nat>) {
    && |at| == |r|
    && (forall k | 0 <= k < |r| :: IsFirst(xs, at[k]) && xs[at[k]] == r[k])
    && forall k, m | 0 <= k < m < |r| :: at[k] < at[m]
  }

  /** No repetition, the same members, in the order of first occurrence. */
  lemma {:induction false} FirstOccurrencesMeaning(xs: seq<string>) returns (at: seq<nat>)
    ensures Distinct(FirstOccurrences(xs))
    ensures forall x :: x in FirstOccurrences(xs) <==> x in xs
    ensures PicksFirsts(xs, FirstOccurrences(xs), at)
  {
    at := [];
    if xs != [] {
      var n := |xs| - 1;
      at := FirstOccurrencesMeaning(xs[..n]);
      var r := FirstOccurrences(xs[..n]);
      assert xs == xs[..n] + [xs[n]];
      assert forall i: nat | IsFirst(xs[..n], i) :: IsFirst(xs, i);
      if xs[n] !in r {
        assert IsFirst(xs, n) by {
          assert forall j | 0 <= j < n :: xs[j] == xs[..n][j];
        }
        at := at + [n];
      }
    }
  }

  lemma {:induction false} DistinctIsUnchanged(xs: seq<string>)
    requires Distinct(xs)
    ensures FirstOccurrences(xs) == xs
  {
    if xs != [] {
      var n := |xs| - 1;
      DistinctIsUnchanged(xs[..n]);
      assert xs == xs[..n] + [xs[n]];
    }
  }

  // ---- theorems ---------------------------------------------------------------------------

  /**
    An explicit request succeeds exactly when every word of it is granted. The answer is then
    a list of words without repetition, in the order requested, with exactly the requested
    members; and joining it, as the `scope` claim does, and asking again changes nothing.
   */
  lemma ExplicitRequests(requested: string, granted: seq<string>)
    requires !Blank(requested)
    ensures Restrict(Some(requested), granted).Ok? <==> forall w | w in Words(requested) :: w in granted
    ensures Restrict(Some(requested), granted).Ok? ==>
              var out := Restrict(Some(requested), granted).value;
              && out != [] && AllWords(out) && Distinct(out)
              && (forall w | w in out :: w in granted) && (forall w :: w in out <==> w in Words(requested))
              && (exists at :: PicksFirsts(Words(requested), out, at))
              && Words(JoinWords(out)) == out && Restrict(Some(JoinWords(out)), granted) == Ok(out)
  {
    var words := Words(requested);
    RefusedIsTheFirst(words, granted);
    if Restrict(Some(requested), granted).Ok? {
      var out := FirstOccurrences(words);
      var at := FirstOccurrencesMeaning(words);
      assert AllWords(out) by {
        assert forall i | 0 <= i < |out| :: out[i] in out && out[i] in words;
      }
      BlankExactly(requested);
      assert words[0] in out;
      RestrictWords(out, granted);
    }
  }

  /** Word `i` is `w`, and the first that is not granted. */
  ghost predicate RefusedAt(words: seq<string>, granted: seq<string>, i: nat, w: string) {
    i < |words| && words[i] == w && w !in granted && forall j | 0 <= j < i :: words[j] in granted
  }

  lemma {:induction false} FirstRefusedExactly(words: seq<string>, granted: seq<string>, w: string)
    ensures FirstRefused(words, granted) == Some(w) <==> exists i: nat :: RefusedAt(words, granted, i, w)
  {
    if words != [] {
      FirstRefusedExactly(words[1..], granted, w);
      if words[0] in granted {
        if i: nat :| RefusedAt(words[1..], granted, i, w) {
          assert RefusedAt(words, granted, i + 1, w);
        }
        if i: nat :| RefusedAt(words, granted, i, w) {
          assert RefusedAt(words[1..], granted, i - 1, w);
        }
      } else if words[0] == w {
        assert RefusedAt(words, granted, 0, w);
      }
    }
  }

  /** A refusal names the first word that is not granted. */
  lemma RefusalsNameTheFirst(requested: string, granted: seq<string>, w: string)
    requires !Blank(requested)
    ensures Restrict(Some(requested), granted) == Err(InvalidScope(w)) <==> exists i: nat :: RefusedAt(Words(requested), granted, i, w)
  {
    FirstRefusedExactly(Words(requested), granted, w);
    RestrictRefuses(requested, granted);
  }

  lemma RestrictRefuses(requested: string, granted: seq<string>)
    requires !Blank(requested)
    ensures var refused := FirstRefused(Words(requested), granted);
            if refused.Some? then Restrict(Some(requested), granted) == Err(InvalidScope(refused.value))
            else Restrict(Some(requested), granted).Ok?
  {
    assert Explicit(Some(requested));
  }

  /** A list of distinct granted words asks for itself. */
  lemma RestrictWords(out: seq<string>, granted: seq<string>)
    requires AllWords(out) && Distinct(out) && forall w | w in out :: w in granted
    requires out != []
    ensures Words(JoinWords(out)) == out && Restrict(Some(JoinWords(out)), granted) == Ok(out)
  {
    JoinThenSplit(out);
    BlankExactly(JoinWords(out));
    RefusedIsTheFirst(out, granted);
    DistinctIsUnchanged(out);
  }

  /** Without an explicit request, the answer asks for itself again exactly when the stored scopes are distinct words or all blank. */
  lemma InheritedScopesAskForThemselvesExactly(granted: seq<string>)
    ensures Restrict(Some(JoinWords(granted)), granted) == Ok(granted)
            <==> (AllWords(granted) && Distinct(granted)) || forall i | 0 <= i < |granted| :: Blank(granted[i])
  {
    var text := JoinWords(granted);
    JoinedBlankExactly(granted);
    if !Blank(text) {
      if AllWords(granted) && Distinct(granted) {
        RestrictWords(granted, granted);
      }
      if Restrict(Some(text), granted) == Ok(granted) {
        ExplicitRequests(text, granted);
      }
    }
  }

  /** What a reader of the `scope` claim sees: after an explicit request never more than the client holds. */
  lemma ScopeClaimNeverExceedsAnExplicitGrant(requested: string, granted: seq<string>, w: string)
    requires !Blank(requested) && Restrict(Some(requested), granted).Ok?
    requires w in Words(JoinWords(Restrict(Some(requested), granted).value))
    ensures w in granted && w in Words(requested)
  {
    ExplicitRequests(requested, granted);
  }

  /**
    Without an explicit request all that is stored is granted. The claim then reads back as no
    more than the client holds exactly when every word inside a stored scope is itself stored,
    which can be checked when the client is created.
   */
  lemma InheritedScopeClaimStaysWithinTheGrantExactly(requested: Option<string>, granted: seq<string>)
    requires !Explicit(requested)
    ensures Restrict(requested, granted) == Ok(granted)
    ensures (forall w | w in Words(JoinWords(granted)) :: w in granted)
            <==> forall i, w | 0 <= i < |granted| && w in Words(granted[i]) :: w in granted
  {
    forall w ensures w in Words(JoinWords(granted)) <==> exists i :: 0 <= i < |granted| && w in Words(granted[i]) {
      WordsOfJoined(granted, w);
    }
  }

  /** The smallest way to exceed it: a stored scope with a space inside. */
  lemma InheritedScopeClaimCanExceedTheGrant(w: string, rest: string)
    requires IsWord(w)
    ensures var granted := [w + " " + rest];
            Restrict(None, granted) == Ok(granted) && w in Words(JoinWords(granted)) && w !in granted
  {
    WordThenSpace(w, rest);
    assert ([w] + Words(rest))[0] == w;
    assert |w + " " + rest| > |w|;
  }

  /** The first `i` words are granted, and `out` holds them once each. */
  ghost predicate Scanned(words: seq<string>, granted: seq<string>, i: nat, out: seq<string>) {
    i <= |words| && (forall j | 0 <= j < i :: words[j] in granted) && out == FirstOccurrences(words[..i])
  }

  lemma ScanStarts(words: seq<string>, granted: seq<string>)
    ensures Scanned(words, granted, 0, [])
  {
  }

  lemma ScanGoesOn(words: seq<string>, granted: seq<string>, i: nat, out: seq<string>)
    requires Scanned(words, granted, i, out) && i < |words| && words[i] in granted
    ensures Scanned(words, granted, i + 1, if words[i] in out then out else out + [words[i]])
  {
    assert words[..i + 1][..i] == words[..i];
  }

  lemma ScanRefuses(requested: string, granted: seq<string>, i: nat, out: seq<string>)
    requires !Blank(requested) && Scanned(Words(requested), granted, i, out)
    requires i < |Words(requested)| && Words(requested)[i] !in granted
    ensures Restrict(Some(requested), granted) == Err(InvalidScope(Words(requested)[i]))
  {
    RefusedIsTheFirst(Words(requested), granted);
  }

  lemma ScanEnds(requested: string, granted: seq<string>, out: seq<string>)
    requires !Blank(requested) && Scanned(Words(requested), granted, |Words(requested)|, out)
    ensures Restrict(Some(requested), granted) == Ok(out)
  {
    RefusedIsTheFirst(Words(requested), granted);
    assert Words(requested)[..|Words(requested)|] == Words(requested);
  }

  // ---- the operation ----------------------------------------------------------------------

  method RestrictScopes(requested: Option<string>, granted: seq<string>)
    returns (r: Result<seq<string>, ClientCredentialsError>)
    ensures r == Restrict(requested, granted)
  {
    if requested.None? {
      return Ok(granted);
    }
    var trimmed := Trim(requested.value);
    TrimKeepsWords(requested.value);
    if trimmed == "" {
      return Ok(granted);
    }
    var words := Words(trimmed);
    var out: seq<string> := [];
    ScanStarts(words, granted);
    for i := 0 to |words|
      invariant Scanned(words, granted, i, out)
    {
      if words[i] in granted {
        ScanGoesOn(words, granted, i, out);
        if words[i] !in out {
          out := out + [words[i]];
        }
      } else {
        ScanRefuses(requested.value, granted, i, out);
        return Err(InvalidScope(words[i]));
      }
    }
    ScanEnds(requested.value, granted, out);
    r := Ok(out);
  }
}
