/** cJSON_Minify as it is written: two cursors on one block. */
module Minifier {
  import opened Text
  import opened StringCodec
  import opened Minification
  import Form = MinifiedForm

  /** The block behind a `char *`: a C string s, of which `into` bytes have been rewritten. */
  ghost predicate Holds(json: array<Byte>, s: Bytes, into: nat, was: Bytes)
    reads json
  {
    |s| < json.Length == |was| && into <= |s| && s + [NUL] <= was && 0 !in s && json[into..] == was[into..]
  }

  /** What either cursor reads is still the old text. */
  lemma Peek(json: array<Byte>, s: Bytes, into: nat, was: Bytes, k: nat)
    requires Holds(json, s, into, was) && into <= k <= |s|
    ensures k < json.Length && json[k] == was[k] == (if k < |s| then s[k] else NUL)
    ensures json[k] == NUL <==> k == |s|
    ensures into <= |s| < json.Length
  {
    assert json[into..][k - into] == was[into..][k - into];
    assert (s + [NUL])[k] == was[k];
  }

  /** The inner loop over a line comment. */
  method SkipLine(json: array<Byte>, ghost s: Bytes, ghost into: nat, ghost was: Bytes, j: nat) returns (r: nat)
    requires Holds(json, s, into, was) && into <= j <= |s|
    ensures j <= r <= |s| && s[r..] == DropLine(s[j..])
  {
    hide Holds;
    r := j;
    Peek(json, s, into, was, r);
    while json[r] != NUL && json[r] != LF
      invariant j <= r <= |s| && r < json.Length && json[r] == (if r < |s| then s[r] else NUL)
      invariant json[r] == NUL <==> r == |s|
      invariant DropLine(s[r..]) == DropLine(s[j..])
      decreases |s| - r
    {
      assert s[r..][1..] == s[r + 1..];
      r := r + 1;
      Peek(json, s, into, was, r);
    }
  }

  lemma DropBlockStep(s: Bytes, r: nat)
    requires r < |s|
    ensures if s[r] == STAR && r + 1 < |s| && s[r + 1] == SLASH then DropBlock(s[r..]) == Some(s[r + 2..])
            else DropBlock(s[r..]) == DropBlock(s[r + 1..])
  {
    var t := s[r..];
    assert t[1..] == s[r + 1..] && (|t| >= 2 ==> t[2..] == s[r + 2..]);
  }

  lemma NoBlockEnds(s: Bytes)
    ensures DropBlock(s[|s|..]) == None
  {
  }

  /**
   The inner loop over a block comment, and the step over its end mark. Without an end mark that step leads past the
   NUL.
   */
  method SkipBlock(json: array<Byte>, ghost s: Bytes, ghost into: nat, ghost was: Bytes, j: nat) returns (r: nat,
                   past: bool)
    requires Holds(json, s, into, was) && into <= j <= |s|
    ensures past <==> DropBlock(s[j..]).None?
    ensures !past ==> j < r <= |s| && s[r..] == DropBlock(s[j..]).value
  {
    hide Holds, DropBlock;
    r := j;
    Peek(json, s, into, was, r);
    PeekNext(json, s, into, was, r);
    NoBlockEnds(s);
    while json[r] != NUL && !(json[r] == STAR && json[r + 1] == SLASH)
      invariant j <= r <= |s| < json.Length && json[r] == (if r < |s| then s[r] else NUL) && (json[r] == NUL <==>
                r == |s|)
      invariant r < |s| ==> json[r + 1] == if r + 1 < |s| then s[r + 1] else NUL
      invariant DropBlock(s[r..]) == DropBlock(s[j..])
      decreases |s| - r
    {
      DropBlockStep(s, r);
      r := r + 1;
      Peek(json, s, into, was, r);
      PeekNext(json, s, into, was, r);
    }
    past := json[r] == NUL;
    if !past {
      DropBlockStep(s, r);
      r := r + 2;
    }
  }

  lemma PeekNext(json: array<Byte>, s: Bytes, into: nat, was: Bytes, k: nat)
    requires Holds(json, s, into, was) && into <= k <= |s|
    ensures k < |s| ==> |s| < json.Length && json[k + 1] == if k + 1 < |s| then s[k + 1] else NUL
  {
    if k < |s| {
      Peek(json, s, into, was, k + 1);
    }
  }

  /** The bytes j0..j of the text have been appended to what was rewritten before. */
  ghost predicate Copied(json: array<Byte>, s: Bytes, into: nat, was: Bytes, j0: nat, j: nat, done: Bytes)
    reads json
  {
    Holds(json, s, into, was) && j0 <= j <= |s| && into <= j && json[..into] == done + s[j0..j]
  }

  lemma PeekCopied(json: array<Byte>, s: Bytes, into: nat, was: Bytes, j0: nat, j: nat, done: Bytes)
    requires Copied(json, s, into, was, j0, j, done)
    ensures j <= |s| < json.Length && json[j] == (if j < |s| then s[j] else NUL) && (json[j] == NUL <==> j == |s|)
  {
    Peek(json, s, into, was, j);
  }

  /** Both cursors take one byte. */
  method CopyByte(json: array<Byte>, ghost s: Bytes, into: nat, ghost was: Bytes, ghost j0: nat, j: nat,
                  ghost done: Bytes)
    requires Copied(json, s, into, was, j0, j, done) && j < |s|
    modifies json
    ensures Copied(json, s, into + 1, was, j0, j + 1, done)
  {
    Peek(json, s, into, was, j);
    json[into] := json[j];
    assert json[into + 1..] == was[into + 1..];
    SliceThen(s, j0, j);
    assert json[..into + 1] == json[..into] + [s[j]];
    assert (done + s[j0..j]) + [s[j]] == done + (s[j0..j] + [s[j]]);
  }

  lemma SliceThen(s: Bytes, j0: nat, j: nat)
    requires j0 <= j < |s|
    ensures s[j0..j + 1] == s[j0..j] + [s[j]]
  {
  }

  method CopyPlainByte(json: array<Byte>, ghost s: Bytes, into: nat, ghost was: Bytes, j: nat)
    requires Holds(json, s, into, was) && into <= j < |s|
    modifies json
    ensures Holds(json, s, into + 1, was) && json[..into + 1] == old(json[..into]) + s[j..j + 1]
  {
    ghost var done := json[..into];
    StartCopy(json, s, into, was, j);
    CopyByte(json, s, into, was, j, j, done);
  }

  lemma CopiedMeans(json: array<Byte>, s: Bytes, into: nat, was: Bytes, j0: nat, j: nat, done: Bytes)
    requires Copied(json, s, into, was, j0, j, done)
    ensures Holds(json, s, into, was) && j0 <= j <= |s| && into <= json.Length && json[..into] == done + s[j0..j]
  {
  }

  /** From j on, the walk through the literal opened at j0 has the outcome e. */
  ghost predicate Inside(s: Bytes, j0: nat, j: nat, e: Option<nat>) {
    j0 < j <= |s| && ScanString(s[j0..], j - j0) == e
  }

  lemma InsideStep(s: Bytes, j0: nat, j: nat, e: Option<nat>)
    requires Inside(s, j0, j, e)
    ensures j == |s| ==> e.None?
    ensures j < |s| && s[j] == QUOTE ==> e == Some(j - j0)
    ensures j < |s| && s[j] == BACKSLASH ==> if j + 1 < |s| then Inside(s, j0, j + 2, e) else e.None?
    ensures j < |s| && s[j] != QUOTE && s[j] != BACKSLASH ==> Inside(s, j0, j + 1, e)
  {
    assert j < |s| ==> s[j0..][j - j0] == s[j];
  }

  /**
   One turn of the loop over a string literal: a byte, or a backslash and the byte it takes along. When that byte is
   the NUL, the cursors pass it.
   */
  method CopyUnit(json: array<Byte>, ghost s: Bytes, into: nat, ghost was: Bytes, ghost j0: nat, j: nat,
                  ghost e: Option<nat>,
                  ghost done: Bytes)
    returns (i2: nat, j2: nat, past: bool)
    requires Copied(json, s, into, was, j0, j, done) && Inside(s, j0, j, e) && j < |s| && s[j] != QUOTE
             && j < json.Length
    modifies json
    ensures past ==> e.None?
    ensures !past ==> j < j2 && i2 - into == j2 - j && Copied(json, s, i2, was, j0, j2, done) && Inside(s, j0, j2, e)
  {
    hide Copied, Holds, Inside;
    InsideStep(s, j0, j, e);
    PeekCopied(json, s, into, was, j0, j, done);
    i2, j2, past := into, j, false;
    if json[j2] == BACKSLASH {
      CopyByte(json, s, i2, was, j0, j2, done);
      i2, j2 := i2 + 1, j2 + 1;
      PeekCopied(json, s, i2, was, j0, j2, done);
    }
    if json[j2] == NUL {
      past := true;
      return;
    }
    CopyByte(json, s, i2, was, j0, j2, done);
    i2, j2 := i2 + 1, j2 + 1;
  }

  /**
   The inner loop over a string literal, quotes included: both cursors advance together. Without a closing quote they
   pass the NUL.
   */
  method CopyString(json: array<Byte>, ghost s: Bytes, into: nat, ghost was: Bytes, j: nat) returns (i2: nat,
                    j2: nat, past: bool)
    requires Holds(json, s, into, was) && into <= j < |s| && s[j] == QUOTE
    modifies json
    ensures past <==> ScanString(s[j..], 1).None?
    ensures !past ==> j2 == j + ScanString(s[j..], 1).value + 1 <= |s| && i2 - into == j2 - j
    ensures !past ==> Holds(json, s, i2, was) && json[..i2] == old(json[..into]) + s[j..j2]
  {
    ghost var e := ScanString(s[j..], 1);
    ghost var done := json[..into];
    StartCopy(json, s, into, was, j);
    assert Inside(s, j, j + 1, e);
    hide Copied, Holds, Inside, ScanString;
    CopyByte(json, s, into, was, j, j, done);
    i2, j2, past := into + 1, j + 1, false;
    PeekCopied(json, s, i2, was, j, j2, done);
    while json[j2] != NUL && json[j2] != QUOTE
      invariant j < j2 <= |s| < json.Length && i2 - into == j2 - j && Inside(s, j, j2, e) && !past
      invariant json[j2] == (if j2 < |s| then s[j2] else NUL) && (json[j2] == NUL <==> j2 == |s|)
      invariant Copied(json, s, i2, was, j, j2, done)
      decreases |s| - j2
    {
      i2, j2, past := CopyUnit(json, s, i2, was, j, j2, e, done);
      if past {
        return;
      }
      PeekCopied(json, s, i2, was, j, j2, done);
    }
    InsideStep(s, j, j2, e);
    if json[j2] == NUL {
      past := true;
      return;
    }
    CopyByte(json, s, i2, was, j, j2, done);
    i2, j2 := i2 + 1, j2 + 1;
    CopiedMeans(json, s, i2, was, j, j2, done);
  }

  lemma StartCopy(json: array<Byte>, s: Bytes, into: nat, was: Bytes, j: nat)
    requires Holds(json, s, into, was) && into <= j <= |s|
    ensures Copied(json, s, into, was, j, j, json[..into])
  {
    assert json[..into] + s[j..j] == json[..into];
  }

  /** A step of the main loop over u keeps what is closed and what is written. */
  ghost predicate Passes(s: Bytes, j: nat, j2: nat, u: Bytes) {
    j < j2 <= |s| && (Closed(s[j..]) <==> Closed(s[j2..])) && (Closed(s[j..]) ==> Minify(s[j..]) == u + Minify(s[j2..]))
  }

  lemma BlankPasses(s: Bytes, j: nat)
    requires j < |s| && IsBlank(s[j])
    ensures Passes(s, j, j + 1, [])
  {
    assert s[j..][1..] == s[j + 1..];
    if Closed(s[j..]) {
      assert [] + Minify(s[j + 1..]) == Minify(s[j + 1..]);
    }
  }

  lemma LinePasses(s: Bytes, j: nat, j2: nat)
    requires j + 1 < |s| && s[j] == SLASH && s[j + 1] == SLASH && j2 <= |s| && s[j2..] == DropLine(s[j..])
    ensures Passes(s, j, j2, [])
  {
    var r := s[j..];
    assert LineComment(r) && |s[j2..]| < |r|;
    if Closed(r) {
      assert [] + Minify(s[j2..]) == Minify(s[j2..]);
    }
  }

  lemma BlockPasses(s: Bytes, j: nat, j2: nat)
    requires j + 1 < |s| && s[j] == SLASH && s[j + 1] == STAR
    ensures DropBlock(s[j..]).None? ==> !Closed(s[j..])
    ensures j < j2 <= |s| && DropBlock(s[j..]) == Some(s[j2..]) ==> Passes(s, j, j2, [])
  {
    var r := s[j..];
    assert BlockComment(r) && !LineComment(r);
    if j < j2 <= |s| && DropBlock(r) == Some(s[j2..]) && Closed(r) {
      assert [] + Minify(s[j2..]) == Minify(s[j2..]);
    }
  }

  lemma StringPasses(s: Bytes, j: nat)
    requires j < |s| && s[j] == QUOTE
    ensures ScanString(s[j..], 1).None? ==> !Closed(s[j..])
    ensures ScanString(s[j..], 1).Some? ==>
              var j2 := j + ScanString(s[j..], 1).value + 1; j2 <= |s| && Passes(s, j, j2, s[j..j2])
  {
    var r := s[j..];
    assert !LineComment(r) && !BlockComment(r) && !IsBlank(r[0]);
    if ScanString(r, 1).Some? {
      var e := ScanString(r, 1).value;
      assert r[e + 1..] == s[j + e + 1..] && r[..e + 1] == s[j..j + e + 1];
    }
  }

  lemma BytePasses(s: Bytes, j: nat)
    requires j < |s| && !IsBlank(s[j]) && s[j] != QUOTE && !LineComment(s[j..]) && !BlockComment(s[j..])
    ensures Passes(s, j, j + 1, s[j..j + 1])
  {
    var r := s[j..];
    assert r[1..] == s[j + 1..] && s[j..j + 1] == [s[j]];
  }

  /** What the main loop keeps: the read cursor j never falls behind the write cursor. */
  ghost predicate Minifying(json: array<Byte>, s: Bytes, was: Bytes, into: nat, j: nat)
    reads json
  {
    && into <= j <= |s| && Holds(json, s, into, was) && (Closed(s) <==> Closed(s[j..]))
    && (Closed(s) ==> Minify(s) == json[..into] + Minify(s[j..]))
  }

  /** One turn of the main loop. */
  method MinifyTurn(json: array<Byte>, ghost s: Bytes, ghost was: Bytes, into: nat, j: nat) returns (i2: nat,
                    j2: nat, past: bool)
    requires Minifying(json, s, was, into, j) && j < |s| < json.Length
    modifies json
    ensures past ==> !Closed(s)
    ensures !past ==> j < j2 && Minifying(json, s, was, i2, j2)
  {
    hide Holds, Minify, Closed, ScanString, DropLine, DropBlock, Passes;
    ghost var done := json[..into];
    Peek(json, s, into, was, j);
    PeekNext(json, s, into, was, j);
    i2, j2, past := into, j, false;
    if json[j] == SPACE {
      j2 := j + 1;
      BlankPasses(s, j);
    } else if json[j] == TAB {
      j2 := j + 1;
      BlankPasses(s, j);
    } else if json[j] == CR {
      j2 := j + 1;
      BlankPasses(s, j);
    } else if json[j] == LF {
      j2 := j + 1;
      BlankPasses(s, j);
    } else if json[j] == SLASH && json[j + 1] == SLASH {
      j2 := SkipLine(json, s, into, was, j);
      LinePasses(s, j, j2);
    } else if json[j] == SLASH && json[j + 1] == STAR {
      j2, past := SkipBlock(json, s, into, was, j);
      BlockPasses(s, j, j2);
    } else if json[j] == QUOTE {
      i2, j2, past := CopyString(json, s, into, was, j);
      StringPasses(s, j);
    } else {
      CopyPlainByte(json, s, into, was, j);
      i2, j2 := into + 1, j + 1;
      BytePasses(s, j);
    }
    if !past {
      Advance(json, s, was, i2, j, j2, done, if i2 == into then [] else s[j..j2]);
    }
  }

  /** A step that writes u behind what was done. */
  lemma Advance(json: array<Byte>, s: Bytes, was: Bytes, i2: nat, j: nat, j2: nat, done: Bytes, u: Bytes)
    requires Passes(s, j, j2, u) && Holds(json, s, i2, was) && i2 <= j2 && i2 <= json.Length && json[..i2] == done + u
    requires j <= |s| && (Closed(s) <==> Closed(s[j..])) && (Closed(s) ==> Minify(s) == done + Minify(s[j..]))
    ensures j < j2 && Minifying(json, s, was, i2, j2)
  {
    hide Holds, Minify, Closed;
    if Closed(s) {
      assert done + (u + Minify(s[j2..])) == (done + u) + Minify(s[j2..]);
    }
  }

  /**
   The main loop. It passes the NUL exactly for strings with an open literal or comment; otherwise the minified string
   stands in front of the write cursor.
   */
  method MinifyLoop(json: array<Byte>, ghost s: Bytes, ghost was: Bytes) returns (into: nat, past: bool)
    requires Holds(json, s, 0, was)
    modifies json
    ensures past <==> !Closed(s)
    ensures !past ==> Holds(json, s, into, was) && json[..into] == Minify(s)
  {
    hide Holds, Minify, Closed;
    into, past := 0, false;
    var j: nat := 0;
    StartMinify(json, s, was);
    Peek(json, s, into, was, j);
    while json[j] != NUL
      invariant Minifying(json, s, was, into, j) && j < json.Length && (json[j] == NUL <==> j == |s|)
                && |s| < json.Length
      invariant !past
      decreases |s| - j
    {
      into, j, past := MinifyTurn(json, s, was, into, j);
      if past {
        return;
      }
      Peek(json, s, into, was, j);
    }
    MinifyNothing(s);
    assert json[..into] + [] == json[..into];
  }

  lemma StartMinify(json: array<Byte>, s: Bytes, was: Bytes)
    requires Holds(json, s, 0, was)
    ensures Minifying(json, s, was, 0, 0)
  {
    hide Holds, Minify, Closed;
    assert s[0..] == s && json[..0] == [];
    if Closed(s) {
      assert [] + Minify(s) == Minify(s);
    }
  }

  lemma MinifyNothing(s: Bytes)
    ensures Closed(s[|s|..]) && Minify(s[|s|..]) == []
  {
  }

  /** The pieces that are kept of a string. */
  lemma KeepsPieces(s: Bytes)
    ensures Closed(s) <==> Form.IsDivisible(s)
    ensures Closed(s) ==>
              forall ps | Form.Divided(ps) && Form.SpellAll(ps) == s :: Minify(s) == Form.SpellAll(Form.Kept(ps))
  {
    hide Minify, Closed, Form.IsDivisible, Form.Divided, Form.SpellAll, Form.Kept;
    Form.MinifyIsKeeping(s, []);
    forall ps | Form.Divided(ps) && Form.SpellAll(ps) == s
      ensures Closed(s) && Minify(s) == Form.SpellAll(Form.Kept(ps))
    {
      Form.MinifyIsKeeping(s, ps);
    }
  }

  /**
   cJSON_Minify: the block ends up holding the minified string, which is the literals and plain bytes of the old one,
   with its NUL, and nothing behind that NUL is touched. `past` says whether the cursors step over the NUL of the
   string; they do so exactly when a literal or a block comment is open, and then nothing is promised.
   */
  method MinifyInPlace(json: array?<Byte>) returns (past: bool)
    requires json != null ==> |CStr(json[..])| < json.Length
    modifies json
    ensures past <==> json != null && !Closed(old(CStr(json[..])))
    ensures json != null && !past ==>
              var m := Minify(old(CStr(json[..])));
              |m| < json.Length && json[..] == m + [NUL] + old(json[..])[|m| + 1..]
    ensures json != null ==> (past <==> !Form.IsDivisible(old(CStr(json[..]))))
    ensures json != null && !past ==>
              forall ps | Form.Divided(ps) && Form.SpellAll(ps) == old(CStr(json[..])) ::
                Minify(old(CStr(json[..]))) == Form.SpellAll(Form.Kept(ps))
  {
    hide Minify, Closed, Form.IsDivisible, Form.Divided, Form.SpellAll, Form.Kept;
    past := false;
    if json == null {
      return;
    }
    ghost var was := json[..];
    ghost var s := CStr(was);
    KeepsPieces(s);
    var into;
    into, past := MinifyLoop(json, s, was);
    if past {
      return;
    }
    Terminate(json, s, was, into);
  }

  /** The last step: the terminator. */
  method Terminate(json: array<Byte>, ghost s: Bytes, ghost was: Bytes, into: nat)
    requires Holds(json, s, into, was)
    modifies json
    ensures json[..] == old(json[..into]) + [NUL] + was[into + 1..]
  {
    ghost var m := json[..into];
    json[into] := NUL;
    assert json[into + 1..] == was[into + 1..];
    assert json[..] == m + [NUL] + json[into + 1..];
  }

  /** A lone quote and an open comment are such strings. */
  lemma OpenTexts()
    ensures !Closed([QUOTE]) && !Closed([SLASH, STAR])
  {
    var t := [SLASH, STAR];
    assert t[1..] == [STAR] && t[0..] == t && DropBlock([STAR]).None?;
    BlockPasses(t, 0, 0);
  }
}
