/** Where a text may be cut in two and its parts encoded or decoded one after the other. */
module UriStreaming {
  import opened Bytes
  import opened UriSpec

  /** A finished first token does not depend on what follows it. */
  lemma FirstTokenIsStable(f: Flags, a: seq<Byte>, b: seq<Byte>)
    requires a != []
    requires FirstToken(f, a).state == Usual || FirstToken(f, a).state == Stopped
    ensures FirstToken(f, a + b) == FirstToken(f, a)
  {
    hide EscapeToken;
    assert forall i | 0 <= i < |a| :: (a + b)[i] == a[i];
  }

  /** A finished first token depends on its own bytes only. */
  lemma FirstTokenOfPrefix(f: Flags, u: seq<Byte>, n: nat)
    requires u != [] && FirstToken(f, u).length <= n <= |u|
    requires FirstToken(f, u).state == Usual || FirstToken(f, u).state == Stopped
    ensures FirstToken(f, u[..n]) == FirstToken(f, u)
  {
    hide EscapeToken;
  }

  /** How decoding `a + b` continues the decoding of `a`. */
  ghost predicate Resumes(f: Flags, a: seq<Byte>, b: seq<Byte>) {
    var first := Unescape(f, a);
    if first.state == Stopped then
      Unescape(f, a + b) == first
    else
      && Lag(first.state) <= |a|
      && var cut := |a| - Lag(first.state);
      Unescape(f, a + b) == Unescape(f, a[cut..] + b).After(first.out, cut)
  }

  lemma ResumeAfterToken(f: Flags, a: seq<Byte>, b: seq<Byte>, token: Token)
    requires a != [] && token == FirstToken(f, a) && token.state == Usual
    requires Resumes(f, a[token.length..], b)
    ensures Resumes(f, a, b)
  {
    hide FirstToken, Unescape;
    var rest := a[token.length..];
    var first := Unescape(f, rest);
    UnescapeToken(f, a, token);
    FirstTokenIsStable(f, a, b);
    UnescapeToken(f, a + b, token);
    assert (a + b)[token.length..] == rest + b;
    if first.state != Stopped {
      var cut := |rest| - Lag(first.state);
      assert a[token.length + cut..] == rest[cut..];
      AfterAfter(Unescape(f, rest[cut..] + b), token.emit, token.length, first.out, cut);
    }
  }

  /**
   Decoding in pieces: after `a` a stopped decoder ignores the rest, and any other one goes on with the
   held-back bytes of the unfinished token put in front of the rest.
   */
  lemma {:induction false} Resume(f: Flags, a: seq<Byte>, b: seq<Byte>)
    ensures Resumes(f, a, b)
    decreases |a|
  {
    hide FirstToken, Unescape;
    assert a[0..] == a && [] + Unescape(f, a + b).out == Unescape(f, a + b).out;
    if a == [] {
      NothingToDecode(f);
      assert a + b == b;
    } else {
      var token := FirstToken(f, a);
      UnescapeToken(f, a, token);
      if token.state == Usual {
        Resume(f, a[token.length..], b);
        ResumeAfterToken(f, a, b, token);
      } else if token.state == Stopped {
        FirstTokenIsStable(f, a, b);
        UnescapeToken(f, a + b, token);
      }
    }
  }

  /** What an unfinished token looks like. */
  lemma {:induction false} HeldBack(f: Flags, a: seq<Byte>)
    ensures
      var state := Unescape(f, a).state;
      && Lag(state) <= |a|
      && (state == Quoted ==> a[|a| - 1] == PERCENT)
      && (state == QuotedSecond ==> a[|a| - 2] == PERCENT && IsHex(a[|a| - 1]))
    decreases |a|
  {
    hide EscapeToken;
    if a != [] && FirstToken(f, a).state == Usual {
      HeldBack(f, a[FirstToken(f, a).length..]);
    }
  }

  /** A percent sign begins a token of its own, but after an unfinished one it is a bad digit. */
  lemma PercentAfter(f: Flags, held: seq<Byte>, state: State)
    requires state == Quoted ==> held == [PERCENT]
    requires state == QuotedSecond ==> |held| == 2 && held[0] == PERCENT && IsHex(held[1])
    ensures Unescape(f, [PERCENT]).state == Quoted
    ensures state == Quoted || state == QuotedSecond ==> Unescape(f, held + [PERCENT]).state == Usual
  {
  }

  /** The decoder distributes over every continuation exactly where its machine is in the usual state. */
  lemma SplitIffUsual(f: Flags, a: seq<Byte>)
    ensures
      var first := Unescape(f, a);
      (forall b :: Unescape(f, a + b) == Unescape(f, b).After(first.out, first.used)) <==> first.state == Usual
  {
    hide Unescape;
    var first := Unescape(f, a);
    UnescapeExtent(f, a);
    HeldBack(f, a);
    if first.state == Usual {
      forall b ensures Unescape(f, a + b) == Unescape(f, b).After(first.out, first.used) {
        Resume(f, a, b);
        assert a[|a|..] + b == b;
      }
    } else {
      Resume(f, a, [PERCENT]);
      PercentAfter(f, a[|a| - Lag(first.state)..], first.state);
      assert Unescape(f, a + [PERCENT]).state != Quoted;
    }
  }

  /** Without the redirect flag, a token is the plain one, except that it may be where the decoder stops. */
  lemma SameToken(f: Flags, u: seq<Byte>)
    requires u != [] && !HasRedirect(f)
    ensures
      var token, plain := FirstToken(f, u), FirstToken(PLAIN, u);
      && token.emit == plain.emit && token.length == plain.length && plain.state != Stopped
      && (token.state == plain.state || (token.state == Stopped && plain.state == Usual))
  {
    hide HexPair;
  }

  /** The stop only cuts: what was written, followed by the meaning of what was not read, is the meaning of all. */
  lemma {:induction false} StoppingOnlyCuts(f: Flags, u: seq<Byte>)
    requires !HasRedirect(f)
    ensures Meaning(u) == Unescape(f, u).out + Meaning(u[Unescape(f, u).used..])
    decreases |u|
  {
    hide Unescape, FirstToken;
    NothingToDecode(f);
    NothingToDecode(PLAIN);
    if u == [] {
      assert u[0..] == u;
    } else {
      var token, plain := FirstToken(f, u), FirstToken(PLAIN, u);
      SameToken(f, u);
      UnescapeToken(f, u, token);
      UnescapeToken(PLAIN, u, plain);
      if token.state == Usual {
        var rest := u[token.length..];
        StoppingOnlyCuts(f, rest);
        var tail := Unescape(f, rest);
        var unread := rest[tail.used..];
        assert u[Unescape(f, u).used..] == unread;
        assert token.emit + (tail.out + Meaning(unread)) == token.emit + tail.out + Meaning(unread);
      } else {
        assert token.state != Stopped ==> u[token.length..] == [] && token.emit + [] == token.emit;
      }
    }
  }
}
