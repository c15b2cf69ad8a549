/** Placeholder substitution: the command template of a watch group is
    turned into one entry's command by replacing every literal
    `$SPYRUN_FILE` with the entry's file path, scanning left to right and
    replacing non-overlapping occurrences. */
module Substitution {
  import opened Results

  /** The placeholder. The program writes it as the regular expression
      `\$SPYRUN_FILE`, which matches exactly this text and nothing else. */
  const Token: string := "$SPYRUN_FILE"

  /** `Token` occurs in `s` starting at position `i`. */
  predicate TokenAt(s: string, i: int)
  {
    0 <= i && i + |Token| <= |s| && s[i..i + |Token|] == Token
  }

  /** What `MatchString` answers for the placeholder. */
  predicate ContainsToken(s: string)
  {
    exists i :: 0 <= i < |s| && TokenAt(s, i)
  }

  /** Literal replacement of every occurrence of `Token` in `template` by
      `file`, leftmost occurrence first. */
  function Replace(file: string, template: string): string
    decreases |template|
  {
    if |template| == 0 then ""
    else if TokenAt(template, 0) then file + Replace(file, template[|Token|..])
    else [template[0]] + Replace(file, template[1..])
  }

  /** `segments[0] + sep + segments[1] + ... + sep + segments[n - 1]`. */
  function Join(segments: seq<string>, sep: string): string
    requires |segments| > 0
    decreases |segments|
  {
    if |segments| == 1 then segments[0]
    else segments[0] + sep + Join(segments[1..], sep)
  }

  /** The text of a template between its tokens: every template is its
      token-free segments joined by `Token`. */
  function Split(template: string): (segments: seq<string>)
    ensures |segments| > 0
    ensures forall k :: 0 <= k < |segments| ==> !ContainsToken(segments[k])
    ensures Join(segments, Token) == template
    decreases |template|
  {
    if |template| == 0 then [""]
    else if TokenAt(template, 0) then
      var rest := Split(template[|Token|..]);
      SplitAtToken(template, rest);
      [""] + rest
    else
      var rest := Split(template[1..]);
      JoinPastChar(template, rest);
      HeadSegmentNoToken(template, rest);
      SegmentsAfterHead(template[0], rest);
      [[template[0]] + rest[0]] + rest[1..]
  }

  /** The step of `Split` for a template that starts with `Token`. */
  lemma SplitAtToken(template: string, rest: seq<string>)
    requires TokenAt(template, 0)
    requires |rest| > 0
    requires forall k :: 0 <= k < |rest| ==> !ContainsToken(rest[k])
    requires Join(rest, Token) == template[|Token|..]
    ensures forall k :: 0 <= k < |[""] + rest| ==> !ContainsToken(([""] + rest)[k])
    ensures Join([""] + rest, Token) == template
  {
    assert ([""] + rest)[1..] == rest;
    assert template == Token + template[|Token|..];
  }

  /** Joining the tail's segments after the template's first character
      gives the template back. */
  lemma JoinPastChar(template: string, rest: seq<string>)
    requires |template| > 0 && |rest| > 0
    requires Join(rest, Token) == template[1..]
    ensures Join([[template[0]] + rest[0]] + rest[1..], Token) == template
  {
    JoinCons(template[0], rest, Token);
    assert [template[0]] + template[1..] == template;
  }

  lemma HeadSegmentNoToken(template: string, rest: seq<string>)
    requires |template| > 0 && !TokenAt(template, 0)
    requires |rest| > 0 && !ContainsToken(rest[0])
    requires Join(rest, Token) == template[1..]
    ensures !ContainsToken([template[0]] + rest[0])
  {
    var more := JoinTail(rest, Token);
    HeadNoToken(template, rest[0], more);
  }

  /** What follows the first segment in a join. */
  lemma JoinTail(segments: seq<string>, sep: string) returns (more: string)
    requires |segments| > 0
    ensures Join(segments, sep) == segments[0] + more
  {
    more := if |segments| == 1 then "" else sep + Join(segments[1..], sep);
  }

  /** Replacing the first segment by a token-free one keeps all segments
      token-free. */
  lemma SegmentsAfterHead(c: char, rest: seq<string>)
    requires |rest| > 0
    requires forall k :: 0 <= k < |rest| ==> !ContainsToken(rest[k])
    requires !ContainsToken([c] + rest[0])
    ensures forall k :: 0 <= k < |rest| ==> !ContainsToken(([[c] + rest[0]] + rest[1..])[k])
  {
    var segments := [[c] + rest[0]] + rest[1..];
    forall k | 0 <= k < |rest|
      ensures !ContainsToken(segments[k])
    {
      if k > 0 {
        assert segments[k] == rest[k];
      }
    }
  }

  /** Only the first character of `Token` is a `$`. */
  lemma DollarOnlyFirst()
    ensures Token[0] == '$'
    ensures forall j :: 1 <= j < |Token| ==> Token[j] != '$'
  {
  }

  /** Prepending a character to the first segment prepends it to the join. */
  lemma JoinCons(c: char, segments: seq<string>, sep: string)
    requires |segments| > 0
    ensures Join([[c] + segments[0]] + segments[1..], sep) == [c] + Join(segments, sep)
  {
    var s := [[c] + segments[0]] + segments[1..];
    assert s[1..] == segments[1..];
  }

  /** An occurrence in `s` past its first character is an occurrence in its tail. */
  lemma TokenAtTail(c: char, s: string, i: int)
    requires 1 <= i
    ensures TokenAt([c] + s, i) <==> TokenAt(s, i - 1)
  {
    if i + |Token| <= |[c] + s| {
      assert ([c] + s)[i..i + |Token|] == s[i - 1..i - 1 + |Token|];
    }
  }

  /** An occurrence in a prefix is an occurrence in the whole. */
  lemma TokenAtPrefix(a: string, b: string, i: int)
    requires TokenAt(a, i)
    ensures TokenAt(a + b, i)
  {
    assert (a + b)[i..i + |Token|] == a[i..i + |Token|];
  }

  /** The first segment of a template that does not start with `Token`,
      extended by the template's first character, is still token-free. */
  lemma HeadNoToken(template: string, first: string, more: string)
    requires |template| > 0 && !TokenAt(template, 0)
    requires !ContainsToken(first)
    requires template[1..] == first + more
    ensures !ContainsToken([template[0]] + first)
  {
    var head := [template[0]] + first;
    assert template == head + more;
    if ContainsToken(head) {
      var i :| 0 <= i < |head| && TokenAt(head, i);
      if i == 0 {
        TokenAtPrefix(head, more, 0);
        assert false;
      } else {
        TokenAtTail(template[0], first, i);
        assert false;
      }
    }
  }

  /** An occurrence `n` characters into `s` is an occurrence in `s[n..]`. */
  lemma TokenAtDrop(s: string, n: int, i: int)
    requires 0 <= n <= |s| && 0 <= i
    ensures TokenAt(s, n + i) <==> TokenAt(s[n..], i)
  {
    if n + i + |Token| <= |s| {
      assert s[n + i..n + i + |Token|] == s[n..][i..i + |Token|];
    }
  }

  lemma NoTokenDrop(s: string, n: int)
    requires 0 <= n <= |s|
    requires !ContainsToken(s)
    ensures !ContainsToken(s[n..])
  {
    if ContainsToken(s[n..]) {
      var i :| 0 <= i < |s[n..]| && TokenAt(s[n..], i);
      TokenAtDrop(s, n, i);
      assert false;
    }
  }

  /** No occurrence starts inside a token-free segment that is followed by
      nothing or by a token. */
  lemma NoStraddle(s: string, rest: string)
    requires |s| > 0 && !ContainsToken(s)
    requires rest == "" || TokenAt(rest, 0)
    ensures !TokenAt(s + rest, 0)
  {
    if |s| >= |Token| {
      assert (s + rest)[..|Token|] == s[..|Token|];
      assert !TokenAt(s, 0);
    } else if rest != "" {
      DollarOnlyFirst();
      assert (s + rest)[|s|] == rest[0] == '$';
      assert Token[|s|] != '$';
    }
  }

  /** Scanning a token-free segment copies it unchanged, provided what
      follows it is empty or starts with a token: no occurrence can
      straddle the boundary, because only the first character of `Token`
      is a `$`. */
  lemma {:induction false} ReplaceSkipsSegment(file: string, s: string, rest: string)
    requires !ContainsToken(s)
    requires rest == "" || TokenAt(rest, 0)
    ensures Replace(file, s + rest) == s + Replace(file, rest)
    decreases |s|
  {
    if |s| > 0 {
      var t := s + rest;
      NoStraddle(s, rest);
      assert t[1..] == s[1..] + rest;
      NoTokenDrop(s, 1);
      ReplaceSkipsSegment(file, s[1..], rest);
      calc {
        Replace(file, t);
        [t[0]] + Replace(file, t[1..]);
        [s[0]] + (s[1..] + Replace(file, rest));
        { assert s == [s[0]] + s[1..]; }
        s + Replace(file, rest);
      }
    } else {
      assert s + rest == rest;
    }
  }

  /** A template without the token comes back unchanged. */
  lemma ReplaceWithoutToken(file: string, template: string)
    requires !ContainsToken(template)
    ensures Replace(file, template) == template
  {
    ReplaceSkipsSegment(file, template, "");
    assert template + "" == template;
  }

  /** If a template is token-free text joined by tokens, substitution puts
      the file path where each token was and keeps the text in between, in
      place and in order. */
  lemma {:induction false} ReplaceJoin(file: string, segments: seq<string>)
    requires |segments| > 0
    requires forall k :: 0 <= k < |segments| ==> !ContainsToken(segments[k])
    ensures Replace(file, Join(segments, Token)) == Join(segments, file)
    decreases |segments|
  {
    if |segments| == 1 {
      ReplaceWithoutToken(file, segments[0]);
    } else {
      var tail := Join(segments[1..], Token);
      var rest := Token + tail;
      assert rest[..|Token|] == Token;
      assert TokenAt(rest, 0);
      ReplaceSkipsSegment(file, segments[0], rest);
      assert rest[|Token|..] == tail;
      ReplaceJoin(file, segments[1..]);
      assert Join(segments, Token) == segments[0] + rest;
    }
  }

  /** Every occurrence of the token is replaced and nothing else changes:
      the result is the template's token-free segments joined by the path. */
  lemma {:induction false} ReplaceBySegments(file: string, template: string)
    ensures Replace(file, template) == Join(Split(template), file)
  {
    ReplaceJoin(file, Split(template));
  }

  /** A template holds the token exactly when splitting it at the token
      yields more than one segment. */
  lemma SplitCountsTokens(template: string)
    ensures ContainsToken(template) <==> |Split(template)| > 1
  {
    var segments := Split(template);
    if |segments| > 1 {
      TokenBetween(segments[0], Join(segments[1..], Token));
    } else {
      assert template == segments[0];
    }
  }

  lemma TokenBetween(a: string, b: string)
    ensures TokenAt(a + Token + b, |a|)
  {
    assert (a + Token + b)[|a|..|a| + |Token|] == Token;
  }

  /** Sum of the lengths of `segments`. */
  function TotalLength(segments: seq<string>): nat
  {
    if |segments| == 0 then 0 else |segments[0]| + TotalLength(segments[1..])
  }

  lemma {:induction false} JoinLength(segments: seq<string>, sep: string)
    requires |segments| > 0
    ensures |Join(segments, sep)| == TotalLength(segments) + (|segments| - 1) * |sep|
    decreases |segments|
  {
    if |segments| > 1 {
      JoinLength(segments[1..], sep);
    }
  }

  /** Each replaced token changes the length by the difference between the
      path and the token. */
  lemma ReplaceLength(file: string, template: string)
    ensures |Replace(file, template)| + (|Split(template)| - 1) * |Token|
         == |template| + (|Split(template)| - 1) * |file|
  {
    var segments := Split(template);
    ReplaceBySegments(file, template);
    JoinLength(segments, file);
    JoinLength(segments, Token);
  }

  /** Every `$` of `s` begins a token. */
  predicate DollarsStartTokens(s: string)
  {
    forall i :: 0 <= i < |s| && s[i] == '$' ==> TokenAt(s, i)
  }

  lemma DollarsStartTokensDrop(s: string, n: int)
    requires 0 <= n <= |s|
    requires DollarsStartTokens(s)
    ensures DollarsStartTokens(s[n..])
  {
    forall i | 0 <= i < |s[n..]| && s[n..][i] == '$'
      ensures TokenAt(s[n..], i)
    {
      assert s[n + i] == '$';
      TokenAtDrop(s, n, i);
    }
  }

  /** Text without `$` cannot hold the token. */
  lemma NoDollarNoToken(s: string)
    requires '$' !in s
    ensures !ContainsToken(s)
  {
    forall i | 0 <= i < |s|
      ensures !TokenAt(s, i)
    {
      if i + |Token| <= |s| {
        assert s[i..i + |Token|][0] == s[i];
        assert s[i] != '$';
      }
    }
  }

  /** A path without `$` put into a template whose every `$` starts a token
      leaves no `$` at all. */
  lemma {:induction false} ReplaceRemovesDollars(file: string, template: string)
    requires '$' !in file
    requires DollarsStartTokens(template)
    ensures '$' !in Replace(file, template)
    decreases |template|
  {
    if |template| > 0 {
      if TokenAt(template, 0) {
        DollarsStartTokensDrop(template, |Token|);
        ReplaceRemovesDollars(file, template[|Token|..]);
      } else {
        DollarsStartTokensDrop(template, 1);
        ReplaceRemovesDollars(file, template[1..]);
      }
    }
  }

  /** Under the same hypotheses the result holds no token, so substituting
      a second time changes nothing. */
  lemma ResubstitutionIsNoOp(file: string, template: string)
    requires '$' !in file
    requires DollarsStartTokens(template)
    ensures !ContainsToken(Replace(file, template))
    ensures Replace(file, Replace(file, template)) == Replace(file, template)
  {
    var r := Replace(file, template);
    ReplaceRemovesDollars(file, template);
    NoDollarNoToken(r);
    ReplaceWithoutToken(file, r);
  }

  /** A path that can never take part in an occurrence of the token: it has
      no `$`, so no occurrence starts inside it, and it is not empty and does
      not start with a character that could continue a partial token left at
      the end of a segment. Paths starting with `.`, `/` or a lower-case
      letter qualify. */
  predicate InertPath(file: string)
  {
    && '$' !in file
    && |file| > 0
    && file[0] !in Token[1..]
  }

  /** Token-free text, then an inert path, then token-free text, holds no
      token: an occurrence would have to start in the first part, since only
      the first character of `Token` is a `$`, and then it would either fit
      inside that part or continue into the path's first character. */
  lemma NoTokenAround(a: string, file: string, b: string)
    requires !ContainsToken(a) && !ContainsToken(b)
    requires InertPath(file)
    ensures !ContainsToken(a + file + b)
  {
    var x := a + file + b;
    forall i | 0 <= i < |x|
      ensures !TokenAt(x, i)
    {
      if i + |Token| <= |a| {
        assert !TokenAt(a, i);
        assert x[i..i + |Token|] == a[i..i + |Token|];
      } else if i < |a| {
        var l := |a| - i;
        if i + |Token| <= |x| {
          assert Token[1..][l - 1] == Token[l];
          assert x[i..i + |Token|][l] == file[0] != Token[l];
        }
      } else if i < |a| + |file| {
        if i + |Token| <= |x| {
          DollarOnlyFirst();
          assert x[i..i + |Token|][0] == file[i - |a|] != Token[0];
        }
      } else {
        var n := |a| + |file|;
        TokenAtDrop(x, n, i - n);
        assert x[n..] == b;
        assert !TokenAt(b, i - n);
      }
    }
  }

  /** Token-free segments joined by an inert path hold no token. */
  lemma {:induction false} JoinInertNoToken(segments: seq<string>, file: string)
    requires |segments| > 0
    requires forall k :: 0 <= k < |segments| ==> !ContainsToken(segments[k])
    requires InertPath(file)
    ensures !ContainsToken(Join(segments, file))
    decreases |segments|
  {
    if |segments| > 1 {
      JoinInertNoToken(segments[1..], file);
      NoTokenAround(segments[0], file, Join(segments[1..], file));
    }
  }

  /** For an inert path, whatever the template (other `$` characters, such as
      `$HOME`, included), the result holds no token, so substituting a
      second time changes nothing. */
  lemma ResubstitutionIsNoOpForPath(file: string, template: string)
    requires InertPath(file)
    ensures !ContainsToken(Replace(file, template))
    ensures Replace(file, Replace(file, template)) == Replace(file, template)
  {
    var r := Replace(file, template);
    ReplaceBySegments(file, template);
    JoinInertNoToken(Split(template), file);
    ReplaceWithoutToken(file, r);
  }

  /** A path free of `$` and of the token does not by itself guarantee a
      token-free result: a partial token left in the template can be
      completed by the path. */
  lemma ResubstitutionCanChangeResult(file: string)
    requires "$SPY" + file == Token
    ensures '$' !in file && !ContainsToken(file)
    ensures Replace(file, "$SPY" + Token) == Token
    ensures Replace(file, Replace(file, "$SPY" + Token)) == file
  {
    ReplaceAfterStrayPrefix(file);
    ReplaceTokenAlone(file);
    DollarOnlyFirst();
    assert forall j :: 0 <= j < |file| ==> file[j] == Token[j + 4];
  }

  /** The partial token `$SPY` before a real one is copied, and the real
      one is replaced. */
  lemma ReplaceAfterStrayPrefix(file: string)
    ensures Replace(file, "$SPY" + Token) == "$SPY" + file
  {
    assert !ContainsToken("$SPY");
    assert TokenAt(Token, 0);
    ReplaceSkipsSegment(file, "$SPY", Token);
    ReplaceTokenAlone(file);
  }

  lemma ReplaceTokenAlone(file: string)
    ensures Replace(file, Token) == file
  {
    assert TokenAt(Token, 0);
    ReplaceAtToken(file, Token);
    assert Token[|Token|..] == "";
  }

  /** At an occurrence the path is emitted and scanning resumes after it. */
  lemma ReplaceAtToken(file: string, template: string)
    requires TokenAt(template, 0)
    ensures Replace(file, template) == file + Replace(file, template[|Token|..])
  {
  }

  /** The command for one matched file. The program only rewrites the
      template when the token matches somewhere, and its error result is
      always nil. Only a rewrite reads the path as a replacement template,
      so only then must it be free of `$`. */
  function ConvertSpyVar(file: string, command: string): (r: Result<string>)
    requires ContainsToken(command) ==> '$' !in file
    ensures r.Ok?
    ensures r.value == Join(Split(command), file)
    ensures !ContainsToken(command) ==> r.value == command
  {
    ReplaceBySegments(file, command);
    if ContainsToken(command) then Ok(Replace(file, command))
    else
      ReplaceWithoutToken(file, command);
      Ok(command)
  }
}
