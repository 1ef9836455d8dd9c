/** Scope lists as text: splitting at white space, and joining with single spaces. */
module ScopeText {

  /** The Unicode White_Space characters, as `str::trim` and `str::split_whitespace` use them. */
  predicate IsSpace(c: char) {
    || '\t' <= c <= '\r' || c == ' ' || c == '\U{85}' || c == '\U{A0}' || c == '\U{1680}'
    || '\U{2000}' <= c <= '\U{200A}' || c == '\U{2028}' || c == '\U{2029}'
    || c == '\U{202F}' || c == '\U{205F}' || c == '\U{3000}'
  }

  predicate Blank(s: string) {
    forall i | 0 <= i < |s| :: IsSpace(s[i])
  }

  /** A nonempty run of characters none of which is white space. */
  predicate IsWord(w: string) {
    w != "" && forall i | 0 <= i < |w| :: !IsSpace(w[i])
  }

  predicate AllWords(ws: seq<string>) {
    forall i | 0 <= i < |ws| :: IsWord(ws[i])
  }

  function Words(s: string): (ws: seq<string>)
    ensures AllWords(ws)
    ensures s != "" && !IsSpace(s[0]) ==> ws != []
  {
    if s == "" then []
    else if IsSpace(s[0]) then Words(s[1..])
    else if |s| == 1 || IsSpace(s[1]) then [[s[0]]] + Words(s[1..])
    else
      var rest := Words(s[1..]);
      [[s[0]] + rest[0]] + rest[1..]
  }

  function TrimStart(s: string): string {
    if s != "" && IsSpace(s[0]) then TrimStart(s[1..]) else s
  }

  function TrimEnd(s: string): string {
    if s != "" && IsSpace(s[|s| - 1]) then TrimEnd(s[..|s| - 1]) else s
  }

  function Trim(s: string): string {
    TrimEnd(TrimStart(s))
  }

  function JoinWords(ws: seq<string>): string {
    if ws == [] then "" else if |ws| == 1 then ws[0] else ws[0] + " " + JoinWords(ws[1..])
  }

  lemma {:induction false} SpaceAtTheEnd(s: string, c: char)
    requires IsSpace(c)
    ensures Words(s + [c]) == Words(s)
  {
    if s == "" {
      assert Words([c]) == Words([c][1..]);
    } else {
      SpaceAtTheEnd(s[1..], c);
      assert (s + [c])[1..] == s[1..] + [c];
      if |s| == 1 && !IsSpace(s[0]) {
        assert s == [s[0]];
      }
    }
  }

  lemma {:induction false} TrimStartKeepsWords(s: string)
    ensures Words(TrimStart(s)) == Words(s) && (TrimStart(s) == "" <==> Blank(s))
  {
    if s != "" && IsSpace(s[0]) {
      TrimStartKeepsWords(s[1..]);
      assert Blank(s) <==> Blank(s[1..]) by {
        assert forall i | 0 < i < |s| :: s[i] == s[1..][i - 1];
      }
    }
  }

  lemma {:induction false} TrimEndKeepsWords(s: string)
    ensures Words(TrimEnd(s)) == Words(s) && (TrimEnd(s) == "" <==> Blank(s))
  {
    if s != "" && IsSpace(s[|s| - 1]) {
      TrimEndKeepsWords(s[..|s| - 1]);
      assert s == s[..|s| - 1] + [s[|s| - 1]];
      SpaceAtTheEnd(s[..|s| - 1], s[|s| - 1]);
    }
  }

  /** Trimming first changes no word, and leaves nothing exactly when there is no word at all. */
  lemma TrimKeepsWords(s: string)
    ensures Words(Trim(s)) == Words(s)
    ensures Trim(s) == "" <==> Blank(s)
    ensures Blank(s) <==> Words(s) == []
  {
    TrimStartKeepsWords(s);
    TrimEndKeepsWords(TrimStart(s));
    BlankExactly(s);
    BlankExactly(TrimStart(s));
  }

  lemma {:induction false} BlankExactly(s: string)
    ensures Blank(s) <==> Words(s) == []
  {
    if s != "" {
      BlankExactly(s[1..]);
      assert IsSpace(s[0]) ==> (Blank(s) <==> Blank(s[1..])) by {
        assert forall i | 0 < i < |s| :: s[i] == s[1..][i - 1];
      }
    }
  }

  lemma {:induction false} OneWord(w: string)
    requires IsWord(w)
    ensures Words(w) == [w]
  {
    if |w| == 1 {
      assert w == [w[0]] && Words(w[1..]) == [];
    } else {
      OneWord(w[1..]);
      assert w == [w[0]] + w[1..];
    }
  }

  lemma {:induction false} WordThenSpace(w: string, rest: string)
    requires IsWord(w)
    ensures Words(w + " " + rest) == [w] + Words(rest)
  {
    var s := w + " " + rest;
    if |w| == 1 {
      assert s[1..] == " " + rest && (" " + rest)[1..] == rest;
      assert w == [s[0]];
    } else {
      WordThenSpace(w[1..], rest);
      assert s[1..] == w[1..] + " " + rest;
      assert w == [w[0]] + w[1..];
    }
  }

  /** Joining words with spaces and splitting again gives the same list. */
  lemma {:induction false} JoinThenSplit(ws: seq<string>)
    requires AllWords(ws)
    ensures Words(JoinWords(ws)) == ws
  {
    if |ws| == 1 {
      OneWord(ws[0]);
      assert ws == [ws[0]];
    } else if |ws| > 1 {
      JoinThenSplit(ws[1..]);
      WordThenSpace(ws[0], JoinWords(ws[1..]));
      assert ws == [ws[0]] + ws[1..];
    }
  }

  /** A space separates whatever words stand on its two sides. */
  lemma {:induction false} SpaceSeparates(a: string, b: string)
    ensures Words(a + " " + b) == Words(a) + Words(b)
  {
    var s := a + " " + b;
    if a == "" {
      assert s == " " + b && s[1..] == b;
      assert [] + Words(b) == Words(b);
    } else {
      SpaceSeparates(a[1..], b);
      assert s[1..] == a[1..] + " " + b && s[0] == a[0];
      if |a| == 1 {
        assert a[1..] == "" && s[1..] == " " + b && (" " + b)[1..] == b && [] + Words(b) == Words(b);
      } else {
        assert s[1] == a[1];
        GrowFirst(a[0], Words(a[1..]), Words(b));
      }
    }
  }

  lemma GrowFirst(x: char, rest: seq<string>, more: seq<string>)
    ensures [[x]] + (rest + more) == [[x]] + rest + more
    ensures rest != [] ==> [[x] + (rest + more)[0]] + (rest + more)[1..] == [[x] + rest[0]] + rest[1..] + more
  {
    if rest != [] {
      assert (rest + more)[1..] == rest[1..] + more;
    }
  }

  /** The words of a joined list are the words of its members, and no others. */
  lemma {:induction false} WordsOfJoined(ws: seq<string>, w: string)
    ensures w in Words(JoinWords(ws)) <==> exists i :: 0 <= i < |ws| && w in Words(ws[i])
  {
    if |ws| == 1 {
      assert JoinWords(ws) == ws[0];
    } else if |ws| > 1 {
      SpaceSeparates(ws[0], JoinWords(ws[1..]));
      WordsOfJoined(ws[1..], w);
      if i :| 0 <= i < |ws| && w in Words(ws[i]) {
        assert i > 0 ==> ws[i] == ws[1..][i - 1];
      }
    }
  }

  /** A joined list is blank exactly when every member is. */
  lemma {:induction false} JoinedBlankExactly(ws: seq<string>)
    ensures Blank(JoinWords(ws)) <==> forall i | 0 <= i < |ws| :: Blank(ws[i])
  {
    if |ws| > 1 {
      JoinedBlankExactly(ws[1..]);
      var a, b := ws[0], JoinWords(ws[1..]);
      var s := a + " " + b;
      assert Blank(s) <==> Blank(a) && Blank(b) by {
        assert forall i | 0 <= i < |a| :: s[i] == a[i];
        assert forall i | 0 <= i < |b| :: s[|a| + 1 + i] == b[i];
      }
      assert (forall i | 0 <= i < |ws| :: Blank(ws[i])) <==> Blank(a) && forall i | 0 <= i < |ws[1..]| :: Blank(ws[1..][i]) by {
        assert forall i | 1 <= i < |ws| :: ws[i] == ws[1..][i - 1];
      }
    }
  }
}
