/** `tokenize`: split a typed line on the delimiter `" "` the way `strtok`
    does, into an array of token pointers that grows by `BUFSIZE` slots and
    ends with a NULL slot. */
module Tokenizer {

  /** `#define BUFSIZE 64`: the initial capacity and the growth step. */
  const BUFSIZE: nat := 64

  /** One slot of the result array: a token or the terminating NULL. */
  datatype Slot = Null | Token(text: string)

  /** Length of the run of non-space characters that starts `s`. */
  function WordLen(s: string): (n: nat)
    ensures n <= |s|
    ensures forall i :: 0 <= i < n ==> s[i] != ' '
    ensures n < |s| ==> s[n] == ' '
  {
    if s == [] || s[0] == ' ' then 0 else 1 + WordLen(s[1..])
  }

  /** The maximal runs of non-space characters of `s`, in order. */
  function Words(s: string): seq<string>
    decreases |s|
  {
    if s == [] then []
    else if s[0] == ' ' then Words(s[1..])
    else var n := WordLen(s); [s[..n]] + Words(s[n..])
  }

  /** No word is empty and none holds a space. */
  lemma {:induction false} WordsWellFormed(s: string)
    ensures forall w :: w in Words(s) ==> w != [] && ' ' !in w
    decreases |s|
  {
    if s != [] {
      if s[0] == ' ' {
        WordsWellFormed(s[1..]);
      } else {
        var n := WordLen(s);
        WordsWellFormed(s[n..]);
        assert Words(s) == [s[..n]] + Words(s[n..]);
      }
    }
  }

  /** A space-free non-empty run followed by a space or by nothing is one
      word of the whole. */
  lemma {:induction false} WordsOfRun(w: string, t: string)
    requires w != [] && ' ' !in w
    requires t == [] || t[0] == ' '
    ensures Words(w + t) == [w] + Words(t)
  {
    WordLenOfRun(w, t);
    assert (w + t)[..|w|] == w;
    assert (w + t)[|w|..] == t;
  }

  lemma {:induction false} WordLenOfRun(w: string, t: string)
    requires ' ' !in w
    requires t == [] || t[0] == ' '
    ensures WordLen(w + t) == |w|
  {
    if w != [] {
      assert (w + t)[1..] == w[1..] + t;
      WordLenOfRun(w[1..], t);
    }
  }

  /** The words joined with single spaces, as a user would type them. */
  function Join(ws: seq<string>): string
  {
    if ws == [] then []
    else if |ws| == 1 then ws[0]
    else ws[0] + " " + Join(ws[1..])
  }

  /** Splitting undoes joining: the words of a line typed with single
      spaces are the words typed. */
  lemma {:induction false} WordsOfJoin(ws: seq<string>)
    requires forall w :: w in ws ==> w != [] && ' ' !in w
    ensures Words(Join(ws)) == ws
  {
    if ws != [] {
      var w := ws[0];
      assert w in ws;
      if |ws| == 1 {
        WordsOfRun(w, []);
        assert w + [] == w;
      } else {
        var rest := Join(ws[1..]);
        assert forall v :: v in ws[1..] ==> v in ws;
        WordsOfJoin(ws[1..]);
        WordsOfRun(w, " " + rest);
        assert w + " " + rest == w + (" " + rest);
        assert (" " + rest)[1..] == rest;
      }
    }
  }

  /** The characters of `s` other than spaces. */
  function NonSpaces(s: string): string
  {
    if s == [] then [] else (if s[0] == ' ' then [] else [s[0]]) + NonSpaces(s[1..])
  }

  function Concat(ws: seq<string>): string
  {
    if ws == [] then [] else ws[0] + Concat(ws[1..])
  }

  lemma {:induction false} NonSpacesAppend(a: string, b: string)
    ensures NonSpaces(a + b) == NonSpaces(a) + NonSpaces(b)
  {
    if a != [] {
      assert (a + b)[0] == a[0] && (a + b)[1..] == a[1..] + b;
      NonSpacesAppend(a[1..], b);
      var h := if a[0] == ' ' then [] else [a[0]];
      assert NonSpaces(a + b) == h + (NonSpaces(a[1..]) + NonSpaces(b));
      assert h + (NonSpaces(a[1..]) + NonSpaces(b)) == (h + NonSpaces(a[1..])) + NonSpaces(b);
      assert NonSpaces(a) == h + NonSpaces(a[1..]);
    } else {
      assert a + b == b;
    }
  }

  lemma {:induction false} NonSpacesOfRun(w: string)
    requires ' ' !in w
    ensures NonSpaces(w) == w
  {
    if w != [] {
      NonSpacesOfRun(w[1..]);
    }
  }

  /** Splitting drops exactly the spaces: the words together hold every
      other character of the line, in order. */
  lemma {:induction false} WordsKeepAllCharacters(s: string)
    ensures Concat(Words(s)) == NonSpaces(s)
    decreases |s|
  {
    if s != [] {
      if s[0] == ' ' {
        WordsKeepAllCharacters(s[1..]);
      } else {
        var n := WordLen(s);
        WordsKeepAllCharacters(s[n..]);
        assert s == s[..n] + s[n..];
        NonSpacesAppend(s[..n], s[n..]);
        NonSpacesOfRun(s[..n]);
        assert Words(s)[1..] == Words(s[n..]);
      }
    }
  }

  /** One `strtok(…, " ")` call resuming at `pos`: skip spaces, then take
      the run up to the next space, which is overwritten by NUL so that the
      next call resumes after it. At the end of the line it returns NULL. */
  function Strtok(s: string, pos: nat): (r: (Slot, nat))
    requires pos <= |s|
    ensures pos <= r.1 <= |s|
    ensures r.0 == Null ==> r.1 == |s| && Words(s[pos..]) == []
    ensures r.0.Token? ==> pos < r.1 && Words(s[pos..]) == [r.0.text] + Words(s[r.1..])
    decreases |s| - pos
  {
    if pos == |s| then (Null, pos)
    else if s[pos] == ' ' then
      assert s[pos..][1..] == s[pos + 1..];
      Strtok(s, pos + 1)
    else
      var n := WordLen(s[pos..]);
      var e := pos + n;
      assert s[pos..][..n] == s[pos..e] && s[pos..][n..] == s[e..];
      assert e < |s| ==> s[e..][1..] == s[e + 1..];
      (Token(s[pos..e]), if e < |s| then e + 1 else e)
  }

  /** Where `words[i..]` are the words still ahead of `pos`, the next
      `strtok` call returns `words[i]`, or NULL when there is none. */
  lemma NextWord(s: string, pos: nat, words: seq<string>, i: nat)
    requires pos <= |s| && i <= |words| && words[i..] == Words(s[pos..])
    ensures var r := Strtok(s, pos);
            && (r.0 == Null ==> i == |words|)
            && (r.0.Token? ==> i < |words| && words[i] == r.0.text && words[i + 1..] == Words(s[r.1..]))
  {
    var r := Strtok(s, pos);
    if r.0.Token? {
      assert words[i..] == [r.0.text] + Words(s[r.1..]);
      assert words[i + 1..] == words[i..][1..];
    }
  }

  /** The capacity `tokenize` ends with for `count` tokens: the smallest
      multiple of `BUFSIZE` above `count`. */
  function Capacity(count: nat): (c: nat)
    ensures c % BUFSIZE == 0 && count < c <= count + BUFSIZE
  {
    BUFSIZE * (count / BUFSIZE + 1)
  }

  /** Storing one more token keeps the capacity unless it fills the array,
      in which case the capacity grows by `BUFSIZE`. */
  lemma CapacityNext(i: nat)
    ensures Capacity(i + 1) == if i + 1 == Capacity(i) then Capacity(i) + BUFSIZE else Capacity(i)
  {
    var q := i / BUFSIZE;
    assert i == BUFSIZE * q + i % BUFSIZE;
    if i % BUFSIZE == BUFSIZE - 1 {
      assert i + 1 == BUFSIZE * (q + 1);
      assert (i + 1) / BUFSIZE == q + 1;
    } else {
      assert i + 1 == BUFSIZE * q + (i % BUFSIZE + 1);
      assert (i + 1) / BUFSIZE == q;
    }
  }

  /** `realloc(tokens, size)`: a larger array starting with the old slots. */
  method Grow(tokens: array<Slot>, size: nat) returns (bigger: array<Slot>)
    requires tokens.Length <= size
    ensures fresh(bigger) && bigger.Length == size
    ensures bigger[..tokens.Length] == tokens[..]
  {
    bigger := new Slot[size](_ => Null);
    var j := 0;
    while j < tokens.Length
      invariant 0 <= j <= tokens.Length
      invariant bigger[..j] == tokens[..j]
    {
      bigger[j] := tokens[j];
      j := j + 1;
    }
  }

  /** The slots holding `ws`, in order. */
  function Tokens(ws: seq<string>): (r: seq<Slot>)
    ensures |r| == |ws| && forall j :: 0 <= j < |ws| ==> r[j] == Token(ws[j])
  {
    if ws == [] then [] else Tokens(ws[..|ws| - 1]) + [Token(ws[|ws| - 1])]
  }

  /** `tokens[i++] = token` and the growth check after it: when the store
      fills the array, it is reallocated `BUFSIZE` slots larger. */
  method Push(tokens: array<Slot>, i: nat, token: Slot) returns (stored: array<Slot>, bufsize: nat)
    requires tokens.Length == Capacity(i)
    modifies tokens
    ensures stored.Length == bufsize == Capacity(i + 1)
    ensures stored == tokens || fresh(stored)
    ensures stored[..i + 1] == old(tokens[..i]) + [token]
  {
    tokens[i] := token;
    CapacityNext(i);
    stored, bufsize := tokens, tokens.Length;
    if i + 1 >= bufsize {
      bufsize := bufsize + BUFSIZE;
      stored := Grow(tokens, bufsize);
    }
  }

  /** `tokenize`: the slots before `count` hold the words of `input` in
      order, slot `count` is NULL, and the capacity is the smallest multiple
      of `BUFSIZE` above `count`, so the final NULL store is in bounds. */
  method Tokenize(input: string) returns (tokens: array<Slot>, count: nat)
    ensures count == |Words(input)| && count < tokens.Length
    ensures forall j :: 0 <= j < count ==> tokens[j] == Token(Words(input)[j])
    ensures tokens[count] == Null
    ensures tokens.Length == Capacity(count)
  {
    var bufsize := BUFSIZE;
    var i := 0;
    tokens := new Slot[bufsize](_ => Null);
    ghost var words := Words(input);
    assert input[0..] == input;
    NextWord(input, 0, words, 0);
    var r := Strtok(input, 0);
    var token, pos := r.0, r.1;
    while token != Null
      invariant fresh(tokens) && pos <= |input|
      invariant tokens.Length == bufsize == Capacity(i)
      invariant i <= |words|
      invariant tokens[..i] == Tokens(words[..i])
      invariant token == Null ==> i == |words|
      invariant token.Token? ==> i < |words| && words[i] == token.text && words[i + 1..] == Words(input[pos..])
      decreases |input| - pos + (if token.Token? then 1 else 0)
    {
      assert token == Token(words[i]);
      assert words[..i + 1] == words[..i] + [words[i]];
      tokens, bufsize := Push(tokens, i, token);
      i := i + 1;
      NextWord(input, pos, words, i);
      r := Strtok(input, pos);
      token, pos := r.0, r.1;
    }
    assert words[..i] == words;
    tokens[i] := Null;
    count := i;
  }
}
