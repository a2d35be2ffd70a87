/** The automaton behind the scanner, and longest match on an input that is all in one place. */
module Automaton {
  type State = nat

  const NUL: char := '\0'

  /** Action number of the end-of-buffer state. */
  const END_OF_BUFFER: nat := 108

  /**
    * The tables of the scanner. `step` is a transition, `accept` the rule a state accepts or 0, `stops` holds for
    * states without transitions. `begin` is the start state after a rule, `gives` says whether the action of a
    * rule hands a token to the parser.
    */
  datatype Dfa = Dfa(step: (State, char) -> State, accept: State -> nat, stops: State -> bool,
                     starts: State -> bool, begin: (State, nat) -> State, gives: nat -> bool)
  {
    ghost predicate Valid() {
      && (forall q, c :: c != NUL ==> accept(step(q, c)) != END_OF_BUFFER)
      && (forall q :: !stops(q) ==> accept(step(q, NUL)) == END_OF_BUFFER && stops(step(q, NUL)))
      // The default rule: from a start state every character is accepted, on its own at least.
      && (forall q, c :: starts(q) && c != NUL ==> accept(step(q, c)) != 0)
      && (forall q :: starts(q) ==> !stops(q) && accept(q) != END_OF_BUFFER)
      && (forall q, r :: starts(q) ==> starts(begin(q, r)))
    }
  }

  ghost predicate NulFree(s: seq<char>) {
    forall i :: 0 <= i < |s| ==> s[i] != NUL
  }

  function Run(d: Dfa, q: State, s: seq<char>): State {
    if s == [] then q else d.step(Run(d, q, s[..|s| - 1]), s[|s| - 1])
  }

  /** No state before the last one stops the automaton. */
  ghost predicate Alive(d: Dfa, q: State, s: seq<char>) {
    forall n :: 0 <= n < |s| ==> !d.stops(Run(d, q, s[..n]))
  }

  /** The last accepting position before the end of s. */
  datatype Accepted = Never | At(pos: nat, state: State)

  function Best(d: Dfa, q: State, s: seq<char>): Accepted {
    if s == [] then Never
    else
      var front := s[..|s| - 1];
      if d.accept(Run(d, q, front)) != 0 then At(|front|, Run(d, q, front)) else Best(d, q, front)
  }

  /** Where the automaton stops on s, or the length of s. */
  function StopAt(d: Dfa, q: State, s: seq<char>, n: nat): (m: nat)
    requires n <= |s|
    ensures n <= m <= |s|
    decreases |s| - n
  {
    if n == |s| || d.stops(Run(d, q, s[..n])) then n else StopAt(d, q, s, n + 1)
  }

  function Settle(d: Dfa, q: State, s: seq<char>): Accepted {
    if d.accept(Run(d, q, s)) != 0 then At(|s|, Run(d, q, s)) else Best(d, q, s)
  }

  /** The match on an input held in one piece: run until the automaton stops, then back up if need be. */
  function Munch(d: Dfa, q: State, s: seq<char>): Accepted {
    Settle(d, q, s[..StopAt(d, q, s, 0)])
  }

  lemma RunNext(d: Dfa, q: State, s: seq<char>, c: char)
    ensures Run(d, q, s + [c]) == d.step(Run(d, q, s), c)
  {
    assert (s + [c])[..|s|] == s;
  }

  lemma BestNext(d: Dfa, q: State, s: seq<char>, c: char)
    ensures Best(d, q, s + [c]) ==
            if d.accept(Run(d, q, s)) != 0 then At(|s|, Run(d, q, s)) else Best(d, q, s)
  {
    assert (s + [c])[..|s|] == s;
  }

  lemma AliveNext(d: Dfa, q: State, s: seq<char>, c: char)
    requires Alive(d, q, s) && !d.stops(Run(d, q, s))
    ensures Alive(d, q, s + [c])
  {
    forall n | 0 <= n < |s + [c]| ensures !d.stops(Run(d, q, (s + [c])[..n])) {
      assert (s + [c])[..n] == s[..n];
      assert s[..|s|] == s;
    }
  }

  /** What Best finds is an accepting prefix, and no longer proper prefix accepts. */
  lemma {:induction false} BestFinds(d: Dfa, q: State, s: seq<char>)
    ensures Best(d, q, s).At? ==>
              && Best(d, q, s).pos < |s| && Best(d, q, s).state == Run(d, q, s[..Best(d, q, s).pos])
              && d.accept(Best(d, q, s).state) != 0
    ensures forall n :: 0 <= n < |s| && d.accept(Run(d, q, s[..n])) != 0 ==> Best(d, q, s).At? && n <= Best(d, q, s).pos
  {
    if s != [] {
      var front := s[..|s| - 1];
      BestFinds(d, q, front);
      forall n | 0 <= n < |s| && d.accept(Run(d, q, s[..n])) != 0 ensures Best(d, q, s).At? && n <= Best(d, q, s).pos {
        if n < |front| {
          assert front[..n] == s[..n];
        } else {
          assert s[..n] == front;
        }
      }
      if Best(d, q, front).At? {
        assert front[..Best(d, q, front).pos] == s[..Best(d, q, front).pos];
      }
    }
  }

  /** From a start state some prefix is accepted, and it is not empty. */
  lemma SettleAccepts(d: Dfa, q: State, s: seq<char>)
    requires d.Valid() && d.starts(q) && NulFree(s) && s != []
    ensures Settle(d, q, s).At? && 1 <= Settle(d, q, s).pos <= |s|
    ensures Settle(d, q, s).state == Run(d, q, s[..Settle(d, q, s).pos]) && d.accept(Settle(d, q, s).state) != 0
    ensures forall n :: Settle(d, q, s).pos < n <= |s| ==> d.accept(Run(d, q, s[..n])) == 0
  {
    BestFinds(d, q, s);
    assert s[..|s|] == s;
    assert s[..1] == [] + [s[0]];
    RunNext(d, q, [], s[0]);
    assert d.accept(Run(d, q, s[..1])) != 0;
  }

  lemma {:induction false} StopAtAlive(d: Dfa, q: State, s: seq<char>, n: nat)
    requires n <= |s|
    ensures var m := StopAt(d, q, s, n);
      (forall k :: n <= k < m ==> !d.stops(Run(d, q, s[..k]))) && (m < |s| ==> d.stops(Run(d, q, s[..m])))
    decreases |s| - n
  {
    if n < |s| && !d.stops(Run(d, q, s[..n])) {
      StopAtAlive(d, q, s, n + 1);
    }
  }

  lemma AliveAt(d: Dfa, q: State, s: seq<char>, n: nat, k: nat)
    requires k < n <= |s| && Alive(d, q, s[..n])
    ensures !d.stops(Run(d, q, s[..k]))
  {
    assert s[..n][..k] == s[..k];
  }

  /** The match is the longest one: of the prefixes the automaton gets through, no longer one is accepted. */
  lemma MunchIsLongest(d: Dfa, q: State, s: seq<char>)
    requires d.Valid() && d.starts(q) && NulFree(s) && s != []
    ensures var m := Munch(d, q, s);
      && m.At? && 1 <= m.pos <= |s| && m.state == Run(d, q, s[..m.pos]) && d.accept(m.state) != 0
      && Alive(d, q, s[..m.pos])
      && forall n :: m.pos < n <= |s| && Alive(d, q, s[..n]) ==> d.accept(Run(d, q, s[..n])) == 0
  {
    var k := StopAt(d, q, s, 0);
    StopAtAlive(d, q, s, 0);
    assert s[..0] == [];
    var t := s[..k];
    SettleAccepts(d, q, t);
    var m := Munch(d, q, s);
    assert t[..m.pos] == s[..m.pos];
    forall n | 0 <= n < m.pos ensures !d.stops(Run(d, q, s[..m.pos][..n])) {
      assert s[..m.pos][..n] == s[..n];
    }
    forall n | m.pos < n <= |s| && Alive(d, q, s[..n]) ensures d.accept(Run(d, q, s[..n])) == 0 {
      if n > k {
        AliveAt(d, q, s, n, k);
        assert false;
      } else {
        assert t[..n] == s[..n];
      }
    }
  }

  /** A prefix on which the automaton stops, or gets through to the end of the input, decides the match. */
  lemma MunchDecided(d: Dfa, q: State, s: seq<char>, n: nat)
    requires n <= |s| && Alive(d, q, s[..n]) && (n == |s| || d.stops(Run(d, q, s[..n])))
    ensures Munch(d, q, s) == Settle(d, q, s[..n])
  {
    var k := StopAt(d, q, s, 0);
    StopAtAlive(d, q, s, 0);
    if k < n {
      AliveAt(d, q, s, n, k);
    }
  }

  // ----- running a step at a time

  /** The scanner has got through s: its state, and what it remembers of the last accepting state. Positions are
      counted from bp. */
  ghost predicate Through(d: Dfa, q0: State, s: seq<char>, q: State, bp: nat, lastPos: nat, lastState: State) {
    && q == Run(d, q0, s) && Alive(d, q0, s)
    && (Best(d, q0, s).At? ==> lastPos == bp + Best(d, q0, s).pos && lastState == Best(d, q0, s).state)
  }

  lemma ThroughNothing(d: Dfa, q0: State, bp: nat, lastPos: nat, lastState: State)
    ensures Through(d, q0, [], q0, bp, lastPos, lastState)
  {
  }

  lemma ThroughNext(d: Dfa, q0: State, s: seq<char>, q: State, bp: nat, lastPos: nat, lastState: State, c: char)
    requires Through(d, q0, s, q, bp, lastPos, lastState) && !d.stops(q)
    ensures d.accept(q) != 0 ==> Through(d, q0, s + [c], d.step(q, c), bp, bp + |s|, q)
    ensures d.accept(q) == 0 ==> Through(d, q0, s + [c], d.step(q, c), bp, lastPos, lastState)
  {
    RunNext(d, q0, s, c);
    BestNext(d, q0, s, c);
    AliveNext(d, q0, s, c);
  }

  /** Text without NUL leads from a start state to no end-of-buffer state. */
  lemma RunOnText(d: Dfa, q0: State, s: seq<char>, n: nat)
    requires d.Valid() && d.starts(q0) && NulFree(s) && n <= |s|
    ensures d.accept(Run(d, q0, s[..n])) != END_OF_BUFFER
  {
  }

  /** When the automaton has stopped, or the input has ended, backing up gives the match. */
  lemma ThroughDecides(d: Dfa, q0: State, t: seq<char>, n: nat, q: State, bp: nat, lastPos: nat, lastState: State)
    requires d.Valid() && d.starts(q0) && NulFree(t) && 0 < n <= |t|
    requires Through(d, q0, t[..n], q, bp, lastPos, lastState) && (d.stops(q) || n == |t|)
    ensures var m := Munch(d, q0, t);
      && m.At? && 1 <= m.pos <= n && d.accept(m.state) != 0 && d.accept(m.state) != END_OF_BUFFER
      && (d.accept(q) != 0 ==> m == At(n, q))
      && (d.accept(q) == 0 ==> lastPos == bp + m.pos && lastState == m.state)
  {
    MunchDecided(d, q0, t, n);
    SettleAccepts(d, q0, t[..n]);
    RunOnText(d, q0, t[..n], Settle(d, q0, t[..n]).pos);
  }

  // ----- the tokens of an input

  datatype Token = Token(rule: nat, text: seq<char>)

  /** Every match of the input in turn, with the start state each rule asks for. */
  function Tokens(d: Dfa, q: State, s: seq<char>): (t: seq<Token>)
    decreases |s|
  {
    var m := Munch(d, q, s);
    if s == [] || m.Never? || m.pos == 0 || m.pos > |s| then []
    else
      var rule := d.accept(m.state);
      [Token(rule, s[..m.pos])] + Tokens(d, d.begin(q, rule), s[m.pos..])
  }

  function Texts(t: seq<Token>): seq<char> {
    if t == [] then [] else t[0].text + Texts(t[1..])
  }

  lemma TextsCons(t: Token, rest: seq<Token>)
    ensures Texts([t] + rest) == t.text + Texts(rest)
  {
    assert ([t] + rest)[1..] == rest;
  }

  /** The tokens whose actions hand them to the parser. */
  function Handed(d: Dfa, t: seq<Token>): seq<Token> {
    if t == [] then []
    else if d.gives(t[0].rule) then [t[0]] + Handed(d, t[1..])
    else Handed(d, t[1..])
  }

  /** The first match of an input is its first token. */
  lemma FirstToken(d: Dfa, q: State, s: seq<char>)
    requires d.Valid() && d.starts(q) && NulFree(s) && s != []
    ensures Munch(d, q, s).At? && 1 <= Munch(d, q, s).pos <= |s|
    ensures var m := Munch(d, q, s);
      var rule := d.accept(m.state);
      && Tokens(d, q, s) == [Token(rule, s[..m.pos])] + Tokens(d, d.begin(q, rule), s[m.pos..])
      && Handed(d, Tokens(d, q, s)) == (if d.gives(rule) then [Token(rule, s[..m.pos])] else [])
                                       + Handed(d, Tokens(d, d.begin(q, rule), s[m.pos..]))
  {
    hide Munch, Run;
    MunchIsLongest(d, q, s);
    var m := Munch(d, q, s);
    assert Tokens(d, q, s)[1..] == Tokens(d, d.begin(q, d.accept(m.state)), s[m.pos..]);
  }

  /** No character is lost or read twice: the texts of the tokens are the input. */
  lemma {:induction false} TokensCover(d: Dfa, q: State, s: seq<char>)
    requires d.Valid() && d.starts(q) && NulFree(s)
    ensures Texts(Tokens(d, q, s)) == s
    decreases |s|
  {
    hide Munch, Run, Handed;
    if s != [] {
      FirstToken(d, q, s);
      var m := Munch(d, q, s);
      var rule := d.accept(m.state);
      TokensCover(d, d.begin(q, rule), s[m.pos..]);
      TextsCons(Token(rule, s[..m.pos]), Tokens(d, d.begin(q, rule), s[m.pos..]));
      assert s == s[..m.pos] + s[m.pos..];
    }
  }
}
