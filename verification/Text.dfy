/** The string functions of the Go library that the tools use, on Unicode text. */
module Text {

  /** White space in the sense of Go's `unicode.IsSpace`. */
  predicate IsSpace(c: char) {
    var n := c as int;
    || 9 <= n <= 13 || n == 32 || n == 0x85 || n == 0xA0 || n == 0x1680
    || 0x2000 <= n <= 0x200A || n == 0x2028 || n == 0x2029 || n == 0x202F || n == 0x205F || n == 0x3000
  }

  function TrimLeft(s: string): string {
    if s != [] && IsSpace(s[0]) then TrimLeft(s[1..]) else s
  }

  function TrimRight(s: string): string {
    if s != [] && IsSpace(s[|s| - 1]) then TrimRight(s[..|s| - 1]) else s
  }

  function TrimSpace(s: string): string {
    TrimRight(TrimLeft(s))
  }

  /** No white space at either end. */
  predicate IsTrimmed(s: string) {
    s == [] || (!IsSpace(s[0]) && !IsSpace(s[|s| - 1]))
  }

  function Split(s: string, sep: char): seq<string> {
    if s == [] then [[]]
    else if s[0] == sep then [[]] + Split(s[1..], sep)
    else var rest := Split(s[1..], sep); [[s[0]] + rest[0]] + rest[1..]
  }

  function Join(parts: seq<string>, sep: string): string {
    if parts == [] then ""
    else if |parts| == 1 then parts[0]
    else parts[0] + sep + Join(parts[1..], sep)
  }

  /** The maximal runs of non-space characters. */
  function Fields(s: string): seq<string>
    decreases |s|
  {
    var t := TrimLeft(s);
    TrimLeftShrinks(s);
    if t == [] then []
    else
      var n := WordLength(t);
      [t[..n]] + Fields(t[n..])
  }

  function WordLength(s: string): (n: nat)
    ensures n <= |s|
    ensures s != [] && !IsSpace(s[0]) ==> n > 0
  {
    if s == [] || IsSpace(s[0]) then 0 else 1 + WordLength(s[1..])
  }

  lemma TrimLeftShrinks(s: string)
    ensures |TrimLeft(s)| <= |s|
    ensures TrimLeft(s) != [] ==> !IsSpace(TrimLeft(s)[0])
  {
  }

  // ---------------------------------------------------------------- trimming

  lemma {:induction false} TrimLeftPiece(s: string)
    ensures exists k :: 0 <= k <= |s| && TrimLeft(s) == s[k..]
    ensures TrimLeft(s) == [] || !IsSpace(TrimLeft(s)[0])
  {
    if s != [] && IsSpace(s[0]) {
      TrimLeftPiece(s[1..]);
      var k :| 0 <= k <= |s| - 1 && TrimLeft(s[1..]) == s[1..][k..];
      assert s[1..][k..] == s[k + 1..];
    } else {
      assert s[0..] == s;
    }
  }

  lemma {:induction false} TrimRightPiece(s: string)
    ensures exists k :: 0 <= k <= |s| && TrimRight(s) == s[..k]
    ensures TrimRight(s) == [] || !IsSpace(TrimRight(s)[|TrimRight(s)| - 1])
    ensures s != [] && !IsSpace(s[0]) ==> TrimRight(s) != [] && TrimRight(s)[0] == s[0]
  {
    if s != [] && IsSpace(s[|s| - 1]) {
      var t := s[..|s| - 1];
      TrimRightPiece(t);
      var k :| 0 <= k <= |t| && TrimRight(t) == t[..k];
      assert t[..k] == s[..k];
    } else {
      assert s[..|s|] == s;
    }
  }

  /** Trimming yields trimmed text made of characters of the original. */
  lemma TrimSpaceTrims(s: string)
    ensures IsTrimmed(TrimSpace(s))
    ensures forall c :: c in TrimSpace(s) ==> c in s
  {
    TrimLeftPiece(s);
    TrimRightPiece(TrimLeft(s));
  }

  lemma {:induction false} TrimLeftSkips(pad: string, s: string)
    requires forall c :: c in pad ==> IsSpace(c)
    ensures TrimLeft(pad + s) == TrimLeft(s)
  {
    if pad == [] {
      assert pad + s == s;
    } else {
      assert (pad + s)[1..] == pad[1..] + s;
      TrimLeftSkips(pad[1..], s);
    }
  }

  /** Indenting trimmed text and trimming it again gives it back. */
  lemma TrimIndented(pad: string, s: string)
    requires forall c :: c in pad ==> IsSpace(c)
    requires IsTrimmed(s)
    ensures TrimSpace(pad + s) == s
  {
    TrimLeftSkips(pad, s);
  }

  lemma {:induction false} TrimLeftSnocSpace(s: string, c: char)
    requires IsSpace(c)
    ensures TrimLeft(s + [c]) == if TrimLeft(s) == [] then [] else TrimLeft(s) + [c]
  {
    if s == [] {
      assert s + [c] == [c] && [c][1..] == [];
    } else if IsSpace(s[0]) {
      assert (s + [c])[1..] == s[1..] + [c];
      TrimLeftSnocSpace(s[1..], c);
    }
  }

  /** Trailing white space does not matter to trimming. */
  lemma TrimSnocSpace(s: string, c: char)
    requires IsSpace(c)
    ensures TrimSpace(s + [c]) == TrimSpace(s)
  {
    TrimLeftSnocSpace(s, c);
    var t := TrimLeft(s);
    assert (t + [c])[..|t|] == t;
  }

  // ---------------------------------------------------------------- splitting

  lemma {:induction false} SplitPieces(s: string, sep: char)
    ensures Split(s, sep) != [] && forall p :: p in Split(s, sep) ==> sep !in p && forall c :: c in p ==> c in s
  {
    if s != [] {
      SplitPieces(s[1..], sep);
      var rest := Split(s[1..], sep);
      assert rest[0] in rest;
      assert forall p :: p in rest[1..] ==> p in rest;
    }
  }

  lemma {:induction false} SplitNoSep(s: string, sep: char)
    requires sep !in s
    ensures Split(s, sep) == [s]
  {
    if s != [] {
      assert s[0] in s && [s[0]] + s[1..] == s;
      SplitNoSep(s[1..], sep);
    }
  }

  lemma {:induction false} SplitAtSep(s: string, sep: char, t: string)
    requires sep !in s
    ensures Split(s + [sep] + t, sep) == [s] + Split(t, sep)
  {
    if s == [] {
      assert (s + [sep] + t)[1..] == t;
    } else {
      assert (s + [sep] + t)[1..] == s[1..] + [sep] + t;
      SplitAtSep(s[1..], sep, t);
      assert [s[0]] + s[1..] == s;
      assert ([s[1..]] + Split(t, sep))[1..] == Split(t, sep);
    }
  }

  /** Splitting undoes joining. */
  lemma {:induction false} SplitJoin(parts: seq<string>, sep: char)
    requires parts != [] && forall p :: p in parts ==> sep !in p
    ensures Split(Join(parts, [sep]), sep) == parts
  {
    if |parts| == 1 {
      SplitNoSep(parts[0], sep);
    } else {
      SplitJoin(parts[1..], sep);
      SplitAtSep(parts[0], sep, Join(parts[1..], [sep]));
      assert parts == [parts[0]] + parts[1..];
    }
  }

  lemma {:induction false} JoinSnoc(parts: seq<string>, last: string, sep: string)
    requires parts != []
    ensures Join(parts + [last], sep) == Join(parts, sep) + sep + last
  {
    if |parts| == 1 {
      assert (parts + [last])[1..] == [last];
    } else {
      assert (parts + [last])[1..] == parts[1..] + [last];
      JoinSnoc(parts[1..], last, sep);
    }
  }

  // ---------------------------------------------------------------- words

  /** A word: no white space. */
  predicate IsWord(w: string) {
    w != "" && forall c :: c in w ==> !IsSpace(c)
  }

  predicate AllWords(words: seq<string>) {
    forall k :: 0 <= k < |words| ==> IsWord(words[k])
  }

  lemma {:induction false} WordLengthOf(w: string, rest: string)
    requires forall c :: c in w ==> !IsSpace(c)
    requires rest == [] || IsSpace(rest[0])
    ensures WordLength(w + rest) == |w|
  {
    if w == [] {
      assert w + rest == rest;
    } else {
      assert (w + rest)[1..] == w[1..] + rest;
      WordLengthOf(w[1..], rest);
    }
  }

  /** Splitting at white space undoes joining words with single spaces. */
  lemma {:induction false} FieldsJoin(words: seq<string>)
    requires AllWords(words)
    ensures Fields(Join(words, " ")) == words
  {
    if words == [] {
    } else {
      var w, rest := words[0], words[1..];
      assert IsWord(w) && w[0] in w;
      var tail := if rest == [] then "" else " " + Join(rest, " ");
      var line := w + tail;
      assert Join(words, " ") == line;
      assert TrimLeft(line) == line;
      WordLengthOf(w, tail);
      assert line[..|w|] == w && line[|w|..] == tail;
      FieldsJoin(rest);
      if rest != [] {
        FieldsSkipSpace(Join(rest, " "));
      }
      assert words == [w] + rest;
    }
  }

  lemma FieldsSkipSpace(s: string)
    ensures Fields(" " + s) == Fields(s)
  {
    assert (" " + s)[1..] == s;
  }
}
