/**
 * `java.util.StringTokenizer` with its default delimiters: the tokens of a
 * string are its maximal runs of characters other than space, tab, newline,
 * carriage return and form feed.
 */
module StringTokenizers {
  import Text

  /** The default delimiter set " \t\n\r\f". */
  predicate IsDelimiter(c: char) {
    c == ' ' || c == '\t' || c == '\n' || c == '\r' || c == '\U{000C}'
  }

  predicate NoDelimiter(t: string) {
    forall i :: 0 <= i < |t| ==> !IsDelimiter(t[i])
  }

  predicate AllDelimiters(s: string) {
    forall i :: 0 <= i < |s| ==> IsDelimiter(s[i])
  }

  /** The length of the run of non-delimiters that s starts with. */
  function WordLength(s: string): (n: nat)
    ensures n <= |s|
    ensures NoDelimiter(s[..n])
    ensures n == |s| || IsDelimiter(s[n])
  {
    if s == [] || IsDelimiter(s[0]) then 0 else 1 + WordLength(s[1..])
  }

  /** The tokens of s, in order. */
  function Tokens(s: string): (ts: seq<string>)
    ensures forall t :: t in ts ==> t != [] && NoDelimiter(t)
    decreases |s|
  {
    if s == [] then []
    else if IsDelimiter(s[0]) then Tokens(s[1..])
    else
      var n := WordLength(s);
      [s[..n]] + Tokens(s[n..])
  }

  /** Leading delimiters do not change the tokens. */
  lemma {:induction false} LeadingDelimiters(s: string, k: nat)
    requires k <= |s| && AllDelimiters(s[..k])
    ensures Tokens(s) == Tokens(s[k..])
  {
    if k > 0 {
      assert IsDelimiter(s[..k][0]);
      assert s[1..][..k - 1] == s[1..k];
      LeadingDelimiters(s[1..], k - 1);
      assert s[1..][k - 1..] == s[k..];
    }
  }

  /** A run of non-delimiters ended by a delimiter or the end of the string is the first token. */
  lemma {:induction false} FirstToken(s: string, n: nat)
    requires 0 < n <= |s| && NoDelimiter(s[..n])
    requires n == |s| || IsDelimiter(s[n])
    ensures Tokens(s) == [s[..n]] + Tokens(s[n..])
  {
    WordLengthIs(s, n);
  }

  lemma {:induction false} WordLengthIs(s: string, n: nat)
    requires n <= |s| && NoDelimiter(s[..n])
    requires n == |s| || IsDelimiter(s[n])
    ensures WordLength(s) == n
  {
    if n > 0 {
      assert !IsDelimiter(s[..n][0]);
      assert s[1..][..n - 1] == s[1..n];
      WordLengthIs(s[1..], n - 1);
    }
  }

  /** A string has no tokens exactly when it holds only delimiters (the empty string included). */
  lemma {:induction false} NoTokens(s: string)
    ensures Tokens(s) == [] <==> AllDelimiters(s)
    decreases |s|
  {
    if s != [] {
      if IsDelimiter(s[0]) {
        NoTokens(s[1..]);
        if AllDelimiters(s[1..]) {
          forall i | 0 <= i < |s|
            ensures IsDelimiter(s[i])
          {
            if i > 0 {
              assert s[i] == s[1..][i - 1];
            }
          }
        }
      }
    }
  }

  /** Tokenizing words joined by single spaces gives the words back. */
  lemma {:induction false} TokensOfJoin(words: seq<string>)
    requires forall w :: w in words ==> w != [] && NoDelimiter(w)
    ensures Tokens(Text.Join(words)) == words
  {
    if words != [] {
      var w := words[0];
      assert w in words;
      if |words| == 1 {
        assert w[..|w|] == w;
        FirstToken(w, |w|);
        assert w[|w|..] == [];
      } else {
        var rest := Text.Join(words[1..]);
        var s := w + " " + rest;
        assert s[..|w|] == w;
        FirstToken(s, |w|);
        assert s[|w|..][..1] == " ";
        LeadingDelimiters(s[|w|..], 1);
        assert s[|w|..][1..] == rest;
        assert forall v :: v in words[1..] ==> v in words;
        TokensOfJoin(words[1..]);
      }
    }
  }

  /**
   * s with every maximal run of delimiters turned into one space and the runs
   * at either end dropped: `started` says whether a token has been emitted,
   * `pending` whether a space is owed before the next one.
   */
  function Squeeze(s: string, started: bool, pending: bool): string
    decreases |s|
  {
    if s == [] then []
    else if IsDelimiter(s[0]) then Squeeze(s[1..], started, started)
    else (if pending then " " else "") + [s[0]] + Squeeze(s[1..], true, false)
  }

  /** The input with delimiter runs collapsed to one space and both ends trimmed. */
  function Collapsed(s: string): string {
    Squeeze(s, false, false)
  }

  lemma {:induction false} SqueezeWord(s: string, n: nat, started: bool, pending: bool)
    requires 0 < n <= |s| && NoDelimiter(s[..n])
    ensures Squeeze(s, started, pending) == (if pending then " " else "") + s[..n] + Squeeze(s[n..], true, false)
  {
    assert !IsDelimiter(s[..n][0]);
    if n > 1 {
      assert s[1..][..n - 1] == s[1..n];
      SqueezeWord(s[1..], n - 1, true, false);
      assert s[1..][n - 1..] == s[n..];
      assert [s[0]] + s[1..n] == s[..n];
    }
  }

  lemma {:induction false} SqueezeAfterToken(s: string)
    ensures Squeeze(s, true, true) == (if Tokens(s) == [] then [] else " " + Text.Join(Tokens(s)))
    decreases |s|
  {
    if s != [] {
      if IsDelimiter(s[0]) {
        SqueezeAfterToken(s[1..]);
      } else {
        var n := WordLength(s);
        SqueezeWord(s, n, true, true);
        SqueezeAfterToken(s[n..]);
      }
    }
  }

  /** Joining the tokens with single spaces gives the input collapsed and trimmed. */
  lemma {:induction false} JoinTokens(s: string)
    ensures Text.Join(Tokens(s)) == Collapsed(s)
    decreases |s|
  {
    if s != [] {
      if IsDelimiter(s[0]) {
        JoinTokens(s[1..]);
      } else {
        var n := WordLength(s);
        SqueezeWord(s, n, false, false);
        SqueezeAfterToken(s[n..]);
      }
    }
  }

  /** Skipping delimiters from position `from` to `to` leaves the tokens of the rest alone. */
  lemma TokensAfterSkip(s: string, from: nat, to: nat)
    requires from <= to <= |s| && AllDelimiters(s[from..to])
    ensures Tokens(s[from..]) == Tokens(s[to..])
  {
    var rest := s[from..];
    assert rest[..to - from] == s[from..to];
    LeadingDelimiters(rest, to - from);
    assert rest[to - from..] == s[to..];
  }

  /** The token at [start, end) of s is the first of those from `start` on. */
  lemma TokenAt(s: string, start: nat, end: nat)
    requires start < end <= |s| && NoDelimiter(s[start..end])
    requires end == |s| || IsDelimiter(s[end])
    ensures Tokens(s[start..]) == [s[start..end]] + Tokens(s[end..])
  {
    var token := s[start..];
    assert token[..end - start] == s[start..end];
    FirstToken(token, end - start);
    assert token[end - start..] == s[end..];
  }

  /** The state of a tokenizer: the string and the position it has consumed up to. */
  class StringTokenizer {
    const str: string
    var currentPosition: nat

    ghost predicate Valid()
      reads this
    {
      currentPosition <= |str|
    }

    /** The tokens still to come. */
    ghost function Remaining(): seq<string>
      reads this
      requires Valid()
    {
      Tokens(str[currentPosition..])
    }

    /** `new StringTokenizer(str)`. */
    constructor(str: string)
      ensures Valid() && this.str == str && Remaining() == Tokens(str)
    {
      this.str := str;
      currentPosition := 0;
      assert str[0..] == str;
    }

    /** The first position at or after `position` that holds no delimiter, or the end. */
    method SkipDelimiters(position: nat) returns (p: nat)
      requires position <= |str|
      ensures position <= p <= |str|
      ensures AllDelimiters(str[position..p])
      ensures p == |str| || !IsDelimiter(str[p])
    {
      p := position;
      while p < |str| && IsDelimiter(str[p])
        invariant position <= p <= |str|
        invariant AllDelimiters(str[position..p])
      {
        assert str[position..p + 1] == str[position..p] + [str[p]];
        p := p + 1;
      }
    }

    method HasMoreTokens() returns (b: bool)
      requires Valid()
      ensures b <==> Remaining() != []
    {
      var p := SkipDelimiters(currentPosition);
      TokensAfterSkip(str, currentPosition, p);
      b := p < |str|;
      if b {
        assert Tokens(str[p..]) != [] by {
          NoTokens(str[p..]);
          assert !IsDelimiter(str[p..][0]);
        }
      }
    }

    /** The end of the run of non-delimiters that starts at `position`. */
    method ScanToken(position: nat) returns (p: nat)
      requires position <= |str|
      ensures position <= p <= |str|
      ensures NoDelimiter(str[position..p])
      ensures p == |str| || IsDelimiter(str[p])
    {
      p := position;
      while p < |str| && !IsDelimiter(str[p])
        invariant position <= p <= |str|
        invariant NoDelimiter(str[position..p])
      {
        assert str[position..p + 1] == str[position..p] + [str[p]];
        p := p + 1;
      }
    }

    method NextToken() returns (t: string)
      requires Valid() && Remaining() != []
      modifies this
      ensures Valid()
      ensures [t] + Remaining() == old(Remaining())
    {
      var start := SkipDelimiters(currentPosition);
      TokensAfterSkip(str, currentPosition, start);
      assert start < |str|;
      var end := ScanToken(start);
      TokenAt(str, start, end);
      currentPosition := end;
      t := str[start..end];
    }
  }
}
