/** The scanner skeleton of lexyy.c and the routine that feeds it. */
module Scanner {
  import opened Automaton

  /** The SQL string in the symbol table and how far the scanner has read it. */
  class LexInput {
    const text: seq<char>
    var nextCharPos: nat
    var printLexed: bool

    constructor (text: seq<char>, printLexed: bool)
      ensures this.text == text && nextCharPos == 0 && this.printLexed == printLexed
    {
      this.text, nextCharPos, this.printLexed := text, 0, printLexed;
    }

    ghost function Rest(): seq<char>
      reads this
    {
      if nextCharPos <= |text| then text[nextCharPos..] else []
    }

    /** pars_get_lex_chars: as many characters as fit; at most five when they are echoed. */
    method GetLexChars(buf: array<char>, off: nat, maxSize: nat) returns (result: nat)
      requires nextCharPos <= |text| && off + maxSize <= buf.Length && maxSize > 0
      modifies this`nextCharPos, buf
      ensures nextCharPos == old(nextCharPos) + result <= |text| && result <= maxSize
      ensures result == 0 <==> old(nextCharPos) == |text|
      ensures buf[..off] == old(buf[..off]) && buf[off..off + result] == text[old(nextCharPos)..nextCharPos]
    {
      var len := |text| - nextCharPos;
      if len == 0 {
        return 0;
      }
      if len > maxSize {
        len := maxSize;
      }
      if printLexed {
        if len >= 5 {
          len := 5;
        }
      }
      forall k | 0 <= k < len {
        buf[off + k] := text[nextCharPos + k];
      }
      result := len;
      nextCharPos := nextCharPos + len;
    }
  }

  datatype BufferStatus = New | Normal | EofPending

  datatype EobAction = ContinueScan | EndOfFile | LastMatch

  const READ_BUF_SIZE := 8192

  /** nChars characters of text, then two end-of-buffer characters. */
  ghost predicate Laid(c: seq<char>, nChars: nat, bufSize: nat) {
    && nChars < bufSize && |c| == bufSize + 2 && NulFree(c[..nChars]) && c[nChars] == NUL && c[nChars + 1] == NUL
  }

  lemma LaidSlice(c: seq<char>, nChars: nat, bufSize: nat, bp: nat)
    requires Laid(c, nChars, bufSize) && bp <= nChars
    ensures NulFree(c[bp..nChars])
  {
    forall i | 0 <= i < nChars - bp ensures c[bp..nChars][i] != NUL {
      assert c[bp..nChars][i] == c[..nChars][bp + i];
    }
  }

  lemma RuleStarts(d: Dfa, q: State, rule: nat)
    requires d.Valid() && d.starts(q)
    ensures d.starts(d.begin(q, rule))
  {
  }

  lemma NothingHanded(d: Dfa, q: State, s: seq<char>)
    ensures s == [] ==> Handed(d, Tokens(d, q, s)) == []
  {
  }

  lemma StartRuns(d: Dfa, q: State)
    requires d.Valid() && d.starts(q)
    ensures !d.stops(q)
  {
  }

  lemma Cut(c: seq<char>, bp: nat, cp: nat, n: nat, rest: seq<char>, t: seq<char>)
    requires bp <= cp <= n <= |c| && c[bp..n] + rest == t
    ensures c[cp..n] + rest == t[cp - bp..] && c[bp..cp] == t[..cp - bp]
  {
  }

  lemma ThroughState(d: Dfa, q0: State, s: seq<char>, q: State, bp: nat, lastPos: nat, lastState: State)
    requires Through(d, q0, s, q, bp, lastPos, lastState)
    ensures q == Run(d, q0, s)
  {
  }

  lemma AliveInside(d: Dfa, q: State, s: seq<char>, k: nat)
    requires Alive(d, q, s) && k < |s|
    ensures !d.stops(Run(d, q, s[..k]))
  {
  }

  lemma LaidBounds(c: seq<char>, nChars: nat, bufSize: nat)
    requires Laid(c, nChars, bufSize)
    ensures nChars < bufSize && |c| == bufSize + 2
  {
  }

  /** The buffer after a refill: the kept text, then the next part of the input. */
  lemma Refilled(before: seq<char>, bp: nat, n: nat, size: nat, filled: seq<char>, n': nat, size': nat,
                 text: seq<char>, from: nat, to: nat)
    requires Laid(before, n, size) && bp <= n < |before| && from <= to <= |text| && NulFree(text)
    requires |filled| == size' + 2 && n' == n - bp + (to - from) < size'
    requires filled[..n - bp] == before[bp..n] && filled[n - bp..n'] == text[from..to]
    ensures var after := filled[n' := NUL][n' + 1 := NUL];
      && Laid(after, n', size') && after[..n'] + text[to..] == before[bp..n] + text[from..]
      && after[..n - bp] == before[bp..n]
  {
    var k := n - bp;
    var after := filled[n' := NUL][n' + 1 := NUL];
    LaidSlice(before, n, size, bp);
    assert after[..n'] == filled[..n'] == filled[..k] + filled[k..n'];
    assert after[..k] == filled[..k];
    forall i | 0 <= i < n' ensures after[..n'][i] != NUL {
      if i < k {
        assert filled[..k][i] == before[bp..n][i];
      } else {
        assert filled[k..n'][i - k] == text[from..to][i - k] == text[from + i - k];
      }
    }
    assert text[from..] == text[from..to] + text[to..];
  }

  lemma EndReached(d: Dfa, q0: State, s: seq<char>, q: State, bp: nat, lastPos: nat, lastState: State)
    requires d.Valid() && Through(d, q0, s, q, bp, lastPos, lastState) && !d.stops(q)
    ensures d.accept(d.step(q, NUL)) == END_OF_BUFFER && d.stops(d.step(q, NUL))
    ensures Alive(d, q0, s) && !d.stops(Run(d, q0, s))
  {
  }

  class Scanner {
    const d: Dfa
    const input: LexInput
    var buf: array<char>      // yy_current_buffer->yy_ch_buf
    var bufSize: nat          // yy_current_buffer->yy_buf_size
    var bufNChars: nat        // yy_current_buffer->yy_n_chars
    var status: BufferStatus  // yy_current_buffer->yy_buffer_status
    var nChars: nat
    var cBufP: nat
    var textPtr: nat
    var hold: char
    var start: State
    var lastState: State
    var lastPos: nat

    /** The buffer when the character under the cursor is put back. */
    ghost function Content(): seq<char>
      reads this, buf
      requires cBufP < buf.Length
    {
      buf[..][cBufP := hold]
    }

    /** Everything that has not been matched yet: the rest of the buffer and what has not been read. */
    ghost function Pending(): seq<char>
      reads this, buf, input
      requires cBufP <= nChars < buf.Length
    {
      Content()[cBufP..nChars] + input.Rest()
    }

    /** What does not depend on the cursor: tables, input and end of file. */
    ghost predicate Sound()
      reads this, input
    {
      && d.Valid() && d.starts(start) && NulFree(input.text) && input.nextCharPos <= |input.text|
      && (status == EofPending ==> input.nextCharPos == |input.text|)
      && (status == New ==> bufNChars == nChars)
    }

    /** Between two tokens. */
    ghost predicate Valid()
      reads this, buf, input
    {
      Sound() && cBufP <= nChars < buf.Length && Laid(Content(), nChars, bufSize)
    }

    /** yy_create_buffer and yy_load_buffer_state for an input. */
    constructor (d: Dfa, input: LexInput, size: nat, start: State)
      requires d.Valid() && d.starts(start) && size > 0
      requires NulFree(input.text) && input.nextCharPos <= |input.text|
      ensures Valid() && Pending() == input.Rest() && fresh(buf) && this.input == input && this.d == d && this.start == start
    {
      this.d, this.input, this.start := d, input, start;
      var b := new char[size + 2];
      b[0], b[1] := NUL, NUL;
      buf, bufSize, bufNChars, status := b, size, 0, New;
      nChars, cBufP, textPtr, hold := 0, 0, 0, NUL;
      lastState, lastPos := 0, 0;
    }

    // ----- running the automaton over the buffer

    /** yy_match: transitions until the automaton stops; the end-of-buffer character stops it too. */
    method Match(bp: nat, cp0: nat, q0: State) returns (q: State, cp: nat)
      requires d.Valid() && Laid(buf[..], nChars, bufSize) && bp <= cp0 <= nChars && !d.stops(q0)
      requires Through(d, start, buf[bp..cp0], q0, bp, lastPos, lastState)
      modifies this`lastState, this`lastPos
      ensures bp < cp <= nChars + 1 && d.stops(q)
      ensures cp <= nChars ==> Through(d, start, buf[bp..cp], q, bp, lastPos, lastState)
      ensures cp == nChars + 1 ==>
                d.accept(q) == END_OF_BUFFER && Alive(d, start, buf[bp..nChars]) && !d.stops(Run(d, start, buf[bp..nChars]))
    {
      hide Run, Alive, Best;
      q, cp := q0, cp0;
      while true
        invariant bp <= cp <= nChars && !d.stops(q)
        invariant Through(d, start, buf[bp..cp], q, bp, lastPos, lastState)
        decreases nChars - cp
      {
        ghost var s, p, l := buf[bp..cp], lastPos, lastState;
        ThroughNext(d, start, s, q, bp, p, l, buf[cp]);
        assert buf[bp..cp + 1] == s + [buf[cp]];
        if d.accept(q) != 0 {
          lastState, lastPos := q, cp;
        }
        if cp == nChars {
          EndReached(d, start, s, q, bp, p, l);
        }
        q, cp := d.step(q, buf[cp]), cp + 1;
        if d.stops(q) {
          return;
        }
      }
    }

    /** yy_get_previous_state: the text up to the cursor once more. */
    method GetPreviousState() returns (q: State)
      requires textPtr <= cBufP <= buf.Length && Alive(d, start, buf[textPtr..cBufP])
      modifies this`lastState, this`lastPos
      ensures Through(d, start, buf[textPtr..cBufP], q, textPtr, lastPos, lastState)
    {
      hide Run, Alive, Best;
      q := start;
      ThroughNothing(d, start, textPtr, lastPos, lastState);
      var cp := textPtr;
      assert buf[textPtr..textPtr] == [];
      while cp < cBufP
        invariant textPtr <= cp <= cBufP && Through(d, start, buf[textPtr..cp], q, textPtr, lastPos, lastState)
      {
        AliveInside(d, start, buf[textPtr..cBufP], cp - textPtr);
        assert buf[textPtr..cBufP][..cp - textPtr] == buf[textPtr..cp];
        ThroughNext(d, start, buf[textPtr..cp], q, textPtr, lastPos, lastState, buf[cp]);
        assert buf[textPtr..cp + 1] == buf[textPtr..cp] + [buf[cp]];
        if d.accept(q) != 0 {
          lastState, lastPos := q, cp;
        }
        q := d.step(q, buf[cp]);
        cp := cp + 1;
      }
    }

    // ----- refilling the buffer

    /** The characters from `from` on move to the start of the buffer. */
    method MoveDown(from: nat, count: nat)
      requires from + count <= buf.Length
      modifies buf
      ensures buf[..count] == old(buf[from..from + count])
    {
      var i := 0;
      while i < count
        invariant i <= count && buf[..i] == old(buf[from..from + i])
        invariant forall k :: i <= k < buf.Length ==> buf[k] == old(buf[k])
      {
        buf[i] := buf[from + i];
        i := i + 1;
      }
    }

    /** Doubles the buffer until there is room for a character after the `kept` ones. */
    method Grow(kept: nat) returns (numToRead: nat)
      requires bufSize > 0 && buf.Length == bufSize + 2 && kept < bufSize
      modifies this`buf, this`bufSize
      ensures buf.Length == bufSize + 2 && numToRead > 0 && numToRead == bufSize - kept - 1
      ensures buf[..kept] == old(buf[..kept]) && (buf == old(buf) || fresh(buf))
    {
      var room := bufSize - kept - 1;
      while room <= 0
        invariant bufSize > 0 && buf.Length == bufSize + 2 && room == bufSize - kept - 1
        invariant kept < bufSize && buf[..kept] == old(buf[..kept]) && (buf == old(buf) || fresh(buf))
        decreases kept + 2 - bufSize
      {
        bufSize := bufSize * 2;
        var b := new char[bufSize + 2];
        forall k | 0 <= k < buf.Length {
          b[k] := buf[k];
        }
        assert b[..kept] == buf[..kept];
        buf := b;
        room := bufSize - kept - 1;
      }
      numToRead := room;
    }

    /** Reads behind the kept characters; nothing once the end of the input has been seen. */
    method Read(kept: nat)
      requires Sound() && bufSize > 0 && buf.Length == bufSize + 2 && kept < bufSize
      modifies this`buf, this`bufSize, this`nChars, this`bufNChars, buf, input
      ensures buf.Length == bufSize + 2 && kept + nChars < bufSize && (buf == old(buf) || fresh(buf))
      ensures input.nextCharPos == old(input.nextCharPos) + nChars <= |input.text| && bufNChars == nChars
      ensures nChars == 0 <==> old(input.nextCharPos) == |input.text|
      ensures buf[..kept] == old(buf[..kept])
      ensures buf[kept..kept + nChars] == input.text[old(input.nextCharPos)..input.nextCharPos]
    {
      if status == EofPending {
        bufNChars, nChars := 0, 0;
      } else {
        var numToRead := Grow(kept);
        if numToRead > READ_BUF_SIZE {
          numToRead := READ_BUF_SIZE;
        }
        nChars := input.GetLexChars(buf, kept, numToRead);
        bufNChars := nChars;
      }
    }

    /** yyrestart: flushes the buffer, which counts as new again. */
    method Restart()
      requires buf.Length >= 2
      modifies this`bufNChars, this`status, this`nChars, this`textPtr, this`cBufP, this`hold, buf
      ensures bufNChars == nChars == textPtr == cBufP == 0 && status == New && hold == NUL
    {
      bufNChars := 0;
      buf[0], buf[1] := NUL, NUL;
      status := New;
      nChars, textPtr, cBufP, hold := 0, 0, 0, buf[0];
    }

    /** The first part of yy_get_next_buffer: keeps the text matched so far and reads behind it. */
    method KeepAndRead(from: nat, kept: nat)
      requires Sound() && buf.Length == bufSize + 2 && kept < bufSize && from + kept <= buf.Length
      modifies this`buf, this`bufSize, this`nChars, this`bufNChars, buf, input
      ensures buf.Length == bufSize + 2 && kept + nChars < bufSize && (buf == old(buf) || fresh(buf))
      ensures input.nextCharPos == old(input.nextCharPos) + nChars <= |input.text| && bufNChars == nChars
      ensures nChars == 0 <==> old(input.nextCharPos) == |input.text|
      ensures buf[..kept] == old(buf[from..from + kept])
      ensures buf[kept..kept + nChars] == input.text[old(input.nextCharPos)..input.nextCharPos]
    {
      MoveDown(from, kept);
      Read(kept);
    }

    /** The middle part: was anything read, and if not, is there text left to match? */
    method Verdict(numberToMove: nat) returns (action: EobAction)
      requires buf.Length >= 2
      modifies this`bufNChars, this`nChars, this`status, this`textPtr, this`cBufP, this`hold, buf
      ensures nChars == old(nChars)
      ensures action == ContinueScan <==> nChars > 0
      ensures action == EndOfFile <==> nChars == 0 && numberToMove == 0
      ensures action != EndOfFile ==> buf[..] == old(buf[..]) && bufNChars == old(bufNChars)
      ensures action == ContinueScan ==> status == old(status)
      ensures action == LastMatch ==> status == EofPending
      ensures action == EndOfFile ==> status == New && bufNChars == cBufP == 0 && hold == NUL
    {
      if nChars == 0 {
        if numberToMove == 0 {
          action := EndOfFile;
          Restart();
        } else {
          action := LastMatch;
          status := EofPending;
        }
      } else {
        action := ContinueScan;
      }
    }

    /** The last part: two end-of-buffer characters behind the kept and the new text. */
    method Terminate(kept: nat, ghost before: seq<char>, ghost bp: nat, ghost n: nat, ghost size: nat, ghost from: nat)
      requires Laid(before, n, size) && bp <= n < |before| && kept == n - bp && NulFree(input.text)
      requires from + nChars == input.nextCharPos <= |input.text|
      requires buf.Length == bufSize + 2 && kept + nChars < bufSize
      requires buf[..kept] == before[bp..n] && buf[kept..kept + nChars] == input.text[from..input.nextCharPos]
      modifies this`nChars, this`textPtr, buf
      ensures Laid(buf[..], nChars, bufSize) && textPtr == 0 && nChars == old(nChars) + kept
      ensures buf[..nChars] + input.text[input.nextCharPos..] == before[bp..n] + input.text[from..]
      ensures buf[..kept] == before[bp..n]
    {
      hide NulFree, Laid;
      ghost var filled := buf[..];
      nChars := nChars + kept;
      buf[nChars] := NUL;
      buf[nChars + 1] := NUL;
      textPtr := 0;
      Refilled(before, bp, n, size, filled, nChars, bufSize, input.text, from, input.nextCharPos);
    }

    /**
      * yy_get_next_buffer, called with the cursor behind the end-of-buffer character: keeps the text matched so
      * far and reads more behind it.
      */
    method GetNextBuffer() returns (action: EobAction)
      requires Sound() && status != New && Laid(buf[..], nChars, bufSize)
      requires textPtr <= nChars && cBufP == nChars + 1
      modifies this`buf, this`bufSize, this`bufNChars, this`nChars, this`status, this`textPtr, this`cBufP, this`hold, buf, input
      ensures Sound() && Laid(buf[..], nChars, bufSize) && textPtr == 0 && (buf == old(buf) || fresh(buf))
      ensures buf[..nChars] + input.Rest() == old(buf[textPtr..nChars] + input.Rest())
      ensures old(nChars - textPtr) <= nChars && buf[..old(nChars - textPtr)] == old(buf[textPtr..nChars])
      ensures old(input.nextCharPos) <= input.nextCharPos <= |input.text|
      ensures action == ContinueScan <==> old(input.nextCharPos) < |input.text|
      ensures action == ContinueScan ==> input.nextCharPos > old(input.nextCharPos)
      ensures action != ContinueScan ==> input.nextCharPos == |input.text| && nChars == old(nChars - textPtr)
      ensures action == EndOfFile <==> old(input.nextCharPos) == |input.text| && old(textPtr == nChars)
      ensures action == EndOfFile ==> nChars == cBufP == 0 && hold == NUL
    {
      hide NulFree, Dfa.Valid, Laid;
      assert cBufP <= nChars + 1;  // no "end of buffer missed"
      LaidBounds(buf[..], nChars, bufSize);
      ghost var before, bp, n, size, from := buf[..], textPtr, nChars, bufSize, input.nextCharPos;
      var numberToMove := cBufP - textPtr - 1;
      KeepAndRead(textPtr, numberToMove);
      action := Verdict(numberToMove);
      Terminate(numberToMove, before, bp, n, size, from);
    }

    // ----- one match

    /** Where yy_find_action is entered: the automaton has stopped, has met the end of the input, or has met the
        end of the buffer. `t` is the whole unmatched input. */
    ghost predicate AtAction(bp: nat, q: State, cp: nat, t: seq<char>)
      reads this, buf, input
    {
      && Sound() && Laid(buf[..], nChars, bufSize) && bp <= nChars && buf[bp..nChars] + input.Rest() == t
      && if cp <= nChars then
           && bp < cp && Through(d, start, buf[bp..cp], q, bp, lastPos, lastState)
           && (d.stops(q) || (cp == nChars && input.Rest() == []))
         else
           && cp == nChars + 1 && d.accept(q) == END_OF_BUFFER
           && Alive(d, start, buf[bp..nChars]) && !d.stops(Run(d, start, buf[bp..nChars]))
    }

    /** YY_DO_BEFORE_ACTION. */
    method DoBeforeAction(bp: nat, cp: nat)
      requires bp <= cp < buf.Length
      modifies this`textPtr, this`hold, this`cBufP, buf
      ensures textPtr == bp && cBufP == cp && Content() == old(buf[..]) && buf[bp..cp] == old(buf[bp..cp])
    {
      textPtr, hold := bp, buf[cp];
      buf[cp] := NUL;
      cBufP := cp;
      assert buf[..][cp := hold] == old(buf[..]);
    }

    /** *yy_cp = yy_hold_char. */
    method PutBack()
      requires cBufP < buf.Length
      modifies buf
      ensures buf[..] == old(Content())
    {
      buf[cBufP] := hold;
    }

    /** The match begins or goes on at the cursor. */
    method MatchOn(bp: nat, cp0: nat, q0: State, ghost t: seq<char>) returns (q: State, cp: nat)
      requires Sound() && Laid(buf[..], nChars, bufSize) && bp <= cp0 <= nChars && !d.stops(q0)
      requires Through(d, start, buf[bp..cp0], q0, bp, lastPos, lastState)
      requires buf[bp..nChars] + input.Rest() == t
      modifies this`lastState, this`lastPos
      ensures AtAction(bp, q, cp, t)
    {
      hide Through, Alive, Run, Laid, Dfa.Valid, NulFree;
      LaidBounds(buf[..], nChars, bufSize);
      SoundTables();
      q, cp := Match(bp, cp0, q0);
    }

    lemma SoundTables()
      requires Sound()
      ensures d.Valid() && d.starts(start)
    {
    }

    /** The action of the end-of-buffer state: refill and go on, settle for what there is, or end of file. */
    method EndOfBuffer(cp: nat, ghost t: seq<char>) returns (eof: bool, q: State, cp': nat)
      requires Sound() && textPtr <= nChars && cBufP == cp == nChars + 1 < buf.Length
      requires Laid(Content(), nChars, bufSize)
      requires Content()[textPtr..nChars] + input.Rest() == t
      requires Alive(d, start, Content()[textPtr..nChars]) && !d.stops(Run(d, start, Content()[textPtr..nChars]))
      modifies this`buf, this`bufSize, this`bufNChars, this`nChars, this`status, this`textPtr, this`cBufP, this`hold
      modifies this`lastState, this`lastPos, buf, input
      ensures buf == old(buf) || fresh(buf)
      ensures eof ==> t == [] && Valid() && Pending() == []
      ensures !eof ==> AtAction(textPtr, q, cp', t)
      ensures !eof ==> old(input.nextCharPos) <= input.nextCharPos <= |input.text|
      ensures !eof && cp' > nChars ==> old(input.nextCharPos) < input.nextCharPos
    {
      hide Run, Alive, Dfa.Valid, NulFree;
      var amount := cp - textPtr - 1;
      ghost var text := Content()[textPtr..nChars];
      var action := Refill();
      match action {
        case EndOfFile =>
          cBufP := textPtr;
          hold := buf[cBufP];
          eof, q, cp' := true, start, cBufP;
          assert Content() == buf[..];
        case ContinueScan =>
          cBufP := textPtr + amount;
          assert buf[textPtr..cBufP] == text;
          q := GetPreviousState();
          ThroughState(d, start, text, q, textPtr, lastPos, lastState);
          q, cp' := MatchOn(textPtr, cBufP, q, t);
          eof := false;
        case LastMatch =>
          cBufP := nChars;
          assert buf[textPtr..cBufP] == text;
          q := GetPreviousState();
          eof, cp' := false, cBufP;
      }
    }

    /** Undoes YY_DO_BEFORE_ACTION, settles the status of a new buffer, and gets the next buffer. */
    method Refill() returns (action: EobAction)
      requires Sound() && textPtr <= nChars && cBufP == nChars + 1 < buf.Length
      requires Laid(Content(), nChars, bufSize)
      modifies this`buf, this`bufSize, this`bufNChars, this`nChars, this`status, this`textPtr, this`cBufP, this`hold, buf, input
      ensures Sound() && Laid(buf[..], nChars, bufSize) && textPtr == 0 && (buf == old(buf) || fresh(buf))
      ensures buf[..nChars] + input.Rest() == old(Content()[textPtr..nChars] + input.Rest())
      ensures old(nChars - textPtr) <= nChars && buf[..old(nChars - textPtr)] == old(Content()[textPtr..nChars])
      ensures old(input.nextCharPos) <= input.nextCharPos <= |input.text|
      ensures action == ContinueScan <==> old(input.nextCharPos) < |input.text|
      ensures action == ContinueScan ==> input.nextCharPos > old(input.nextCharPos)
      ensures action != ContinueScan ==> input.nextCharPos == |input.text| && nChars == old(nChars - textPtr)
      ensures action == EndOfFile <==> old(input.nextCharPos) == |input.text| && old(textPtr == nChars)
      ensures action == EndOfFile ==> nChars == cBufP == 0 && hold == NUL
    {
      hide NulFree, Dfa.Valid, Laid;
      LaidBounds(Content(), nChars, bufSize);
      PutBack();
      if status == New {
        nChars := bufNChars;
        status := Normal;
      }
      assert cBufP > nChars;  // the text holds no NUL
      action := GetNextBuffer();
    }

    /** One match: the rule whose action is taken, with the text between textPtr and the cursor, or 0 at end of
        file. It is the match on the whole unread input, wherever the buffer ends. */
    method MatchToken() returns (rule: nat)
      requires Valid()
      modifies this, buf, input
      ensures Valid() && (buf == old(buf) || fresh(buf)) && start == old(start)
      ensures old(Pending()) == [] ==> rule == 0 && Pending() == []
      ensures old(Pending()) != [] ==>
                var m := Munch(d, start, old(Pending()));
                && m.At? && 1 <= m.pos <= |old(Pending())| && rule == d.accept(m.state) && rule != 0
                && textPtr <= cBufP && buf[textPtr..cBufP] == old(Pending())[..m.pos]
                && Pending() == old(Pending())[m.pos..]
    {
      hide Through, Alive, Run, Best, Munch, Dfa.Valid, NulFree, AtAction, Laid;
      ghost var t := Pending();
      var bp: nat, q: State, cp: nat := Begin(t);
      while true
        invariant AtAction(bp, q, cp, t) && start == old(start) && (buf == old(buf) || fresh(buf))
        decreases |input.text| - input.nextCharPos, if cp > nChars then 1 else 0
      {
        ghost var q0: State, cp0: nat := q, cp;
        rule, cp, q := FindAction(bp, q, cp, t);
        if rule != END_OF_BUFFER {
          AtText(bp, q0, cp0, t);
          Cut(buf[..], bp, cp, nChars, input.Rest(), t);
          DoBeforeAction(bp, cp);
          return;
        }
        AtText(bp, q, cp, t);
        DoBeforeAction(bp, cp);
        var eof;
        eof, q, cp := EndOfBuffer(cp, t);
        if eof {
          return 0;
        }
        bp := textPtr;
      }
    }

    /** yylex: matches and actions until one hands a token to the parser, or 0 at end of file. The calls hand
        over the tokens of the unread input, whatever the buffer size and however the input comes in. */
    method Yylex() returns (rule: nat)
      requires Valid()
      modifies this, buf, input
      ensures Valid() && (buf == old(buf) || fresh(buf))
      ensures var tokens := old(Handed(d, Tokens(d, start, Pending())));
        if tokens == [] then rule == 0 && Pending() == []
        else
          && textPtr <= cBufP && Token(rule, buf[textPtr..cBufP]) == tokens[0]
          && Handed(d, Tokens(d, start, Pending())) == tokens[1..]
    {
      hide Munch, Run, Dfa.Valid, NulFree, Laid, Handed, Tokens;
      ghost var tokens := Handed(d, Tokens(d, start, Pending()));
      while true
        invariant Valid() && (buf == old(buf) || fresh(buf))
        invariant Handed(d, Tokens(d, start, Pending())) == tokens
        decreases |Pending()|
      {
        ghost var s, q := Pending(), start;
        PendingText();
        rule := MatchToken();
        if rule == 0 {
          NothingHanded(d, start, s);
          return;
        }
        FirstToken(d, q, s);
        RuleStarts(d, q, rule);
        start := d.begin(start, rule);
        if d.gives(rule) {
          return;
        }
      }
    }

    lemma PendingText()
      requires Valid()
      ensures NulFree(Pending()) && d.Valid() && d.starts(start)
    {
      LaidSlice(Content(), nChars, bufSize, cBufP);
    }

    /** The top of the scanning loop. */
    method Begin(ghost t: seq<char>) returns (bp: nat, q: State, cp: nat)
      requires Valid() && t == Pending()
      modifies this`lastState, this`lastPos, buf
      ensures AtAction(bp, q, cp, t)
    {
      hide Through, Alive, Run, Laid, NulFree, AtAction;
      PutBack();
      bp := cBufP;
      assert buf[bp..bp] == [];
      ThroughNothing(d, start, bp, lastPos, lastState);
      StartRuns(d, start);
      q, cp := MatchOn(bp, bp, start, t);
    }

    /** yy_find_action: backs up to the last accepting state if the automaton did not stop in one. */
    method FindAction(bp: nat, q: State, cp: nat, ghost t: seq<char>) returns (act: nat, cp': nat, q': State)
      requires AtAction(bp, q, cp, t)
      ensures cp > nChars ==> act == END_OF_BUFFER && cp' == cp && q' == q
      ensures cp <= nChars ==>
                var m := Munch(d, start, t);
                && t != [] && m.At? && 1 <= m.pos <= |t| && act == d.accept(m.state) && act != 0 && act != END_OF_BUFFER
                && cp' == bp + m.pos <= nChars
    {
      hide Through, Alive, Run, Laid, NulFree, Dfa.Valid, Munch;
      if cp <= nChars {
        Decided(bp, q, cp, t);
      }
      act, cp', q' := d.accept(q), cp, q;
      if act == 0 {
        cp', q' := lastPos, lastState;
        act := d.accept(q');
      }
    }

    /** What the end-of-buffer action and the end of a match rely on. */
    lemma AtText(bp: nat, q: State, cp: nat, t: seq<char>)
      requires AtAction(bp, q, cp, t)
      ensures Sound() && Laid(buf[..], nChars, bufSize) && bp <= nChars && nChars + 1 < buf.Length && cp <= nChars + 1
      ensures buf[bp..nChars] + input.Rest() == t
      ensures cp > nChars ==> cp == nChars + 1 && Alive(d, start, buf[bp..nChars]) && !d.stops(Run(d, start, buf[bp..nChars]))
    {
      hide Through, Alive, Run, NulFree, Dfa.Valid;
    }

    /** The automaton has stopped inside the text, or at the end of the input: the match is decided. */
    lemma Decided(bp: nat, q: State, cp: nat, t: seq<char>)
      requires AtAction(bp, q, cp, t) && cp <= nChars
      ensures var m := Munch(d, start, t);
        && m.At? && 1 <= m.pos <= cp - bp <= |t| && d.accept(m.state) != 0 && d.accept(m.state) != END_OF_BUFFER
        && (d.accept(q) != 0 ==> m == At(cp - bp, q))
        && (d.accept(q) == 0 ==> lastPos == bp + m.pos && lastState == m.state)
    {
      hide Through, Run, Munch, Dfa.Valid;
      LaidSlice(buf[..], nChars, bufSize, bp);
      assert t[..cp - bp] == buf[bp..cp];
      ThroughDecides(d, start, t, cp - bp, q, bp, lastPos, lastState);
    }
  }
}
