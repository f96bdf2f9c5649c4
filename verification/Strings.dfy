/**
 The in-place string functions of the unpacker, on NUL-terminated byte strings: replacing control characters and
 cleaning up whitespace.
 */
module Strings {
  import opened Bits

  const SPACE: byte := 32

  function SanitizedChar(c: byte): (r: byte) {
    if c < 32 && c != 13 && c != 10 && c != 9 then SPACE else c
  }

  function SanitizedCcChar(c: byte): (r: byte) {
    if c < 32 then SPACE else c
  }

  function Sanitized(s: seq<byte>): (r: seq<byte>)
    ensures |r| == |s|
  {
    seq(|s|, i requires 0 <= i < |s| => SanitizedChar(s[i]))
  }

  function SanitizedCc(s: seq<byte>): (r: seq<byte>)
    ensures |r| == |s|
  {
    seq(|s|, i requires 0 <= i < |s| => SanitizedCcChar(s[i]))
  }

  ghost predicate NulFree(s: seq<byte>) {
    forall i | 0 <= i < |s| :: s[i] != 0
  }

  /** The characters of `s` from index `from` on are in the array, followed by the NUL. */
  ghost predicate RestAt(a: array<byte>, start: nat, s: seq<byte>, from: nat)
    reads a
  {
    && start + |s| < a.Length && a[start + |s|] == 0
    && forall i | start + from <= i < start + |s| :: a[i] == s[i - start]
  }

  /** The C string `s` is in the array at `start`, with its NUL. */
  ghost predicate StringAt(a: array<byte>, start: nat, s: seq<byte>)
    reads a
  {
    RestAt(a, start, s, 0) && NulFree(s)
  }

  /** Nothing outside the string and its NUL has changed. */
  twostate predicate OutsideUnchanged(a: array<byte>, start: nat, n: nat)
    reads a
  {
    forall i | 0 <= i < a.Length && !(start <= i <= start + n) :: a[i] == old(a[i])
  }

  /** `ddproto_str_sanitize` */
  method Sanitize(a: array<byte>, start: nat, ghost s: seq<byte>)
    requires StringAt(a, start, s)
    modifies a
    ensures StringAt(a, start, Sanitized(s)) && OutsideUnchanged(a, start, |s|)
    ensures forall i | 0 <= i < |s| :: a[start + i] == if s[i] < 32 && s[i] !in {9, 10, 13} then 32 else s[i]
  {
    var str := start;
    while a[str] != 0
      invariant start <= str <= start + |s|
      invariant forall i | start <= i < str :: a[i] == SanitizedChar(s[i - start])
      invariant RestAt(a, start, s, str - start) && OutsideUnchanged(a, start, |s|)
      decreases start + |s| - str
    {
      if a[str] < 32 && a[str] != 13 && a[str] != 10 && a[str] != 9 {
        a[str] := SPACE;
      }
      str := str + 1;
    }
  }

  /** `ddproto_str_sanitize_cc` */
  method SanitizeCc(a: array<byte>, start: nat, ghost s: seq<byte>)
    requires StringAt(a, start, s)
    modifies a
    ensures StringAt(a, start, SanitizedCc(s)) && OutsideUnchanged(a, start, |s|)
    ensures forall i | 0 <= i < |s| :: a[start + i] == if s[i] < 32 then 32 else s[i]
  {
    var str := start;
    while a[str] != 0
      invariant start <= str <= start + |s|
      invariant forall i | start <= i < str :: a[i] == SanitizedCcChar(s[i - start])
      invariant RestAt(a, start, s, str - start) && OutsideUnchanged(a, start, |s|)
      decreases start + |s| - str
    {
      if a[str] < 32 {
        a[str] := SPACE;
      }
      str := str + 1;
    }
  }

  /** The string that a pointer into the array stands for. */
  method CString(a: array<byte>, start: nat, ghost s: seq<byte>) returns (r: seq<byte>)
    requires StringAt(a, start, s)
    ensures r == s
  {
    var i := start;
    while a[i] != 0
      invariant start <= i <= start + |s|
      decreases start + |s| - i
    {
      i := i + 1;
    }
    r := a[start..i];
  }

  // ----- Words

  /** The character begins a new word: it is the first one or follows a space. */
  predicate AfterSpace(front: seq<byte>) {
    front == [] || front[|front| - 1] == SPACE
  }

  /** The words of `s`: its maximal runs without a space. */
  function Words(s: seq<byte>): (w: seq<seq<byte>>)
    ensures !AfterSpace(s) ==> w != []
  {
    if s == [] then []
    else
      var front, c := s[..|s| - 1], s[|s| - 1];
      var w := Words(front);
      if c == SPACE then w
      else if AfterSpace(front) then w + [[c]]
      else w[..|w| - 1] + [w[|w| - 1] + [c]]
  }

  /** The words joined by single spaces. */
  function Join(w: seq<seq<byte>>): (s: seq<byte>)
  {
    if w == [] then []
    else if |w| == 1 then w[0]
    else Join(w[..|w| - 1]) + [SPACE] + w[|w| - 1]
  }

  /** What whitespace cleaning leaves of `s`. */
  function Cleaned(s: seq<byte>): (r: seq<byte>) {
    Join(Words(s))
  }

  lemma WordsSnoc(s: seq<byte>, c: byte)
    ensures c == SPACE ==> Words(s + [c]) == Words(s)
    ensures c != SPACE && AfterSpace(s) ==> Words(s + [c]) == Words(s) + [[c]]
    ensures c != SPACE && !AfterSpace(s) ==>
            var w := Words(s); Words(s + [c]) == w[..|w| - 1] + [w[|w| - 1] + [c]]
  {
    assert (s + [c])[..|s|] == s;
  }

  lemma JoinSnoc(w: seq<seq<byte>>, x: seq<byte>)
    ensures Join(w + [x]) == if w == [] then x else Join(w) + [SPACE] + x
  {
    assert (w + [x])[..|w|] == w;
  }

  /** A character at the end of the last word comes last in the joined string. */
  lemma JoinLonger(front: seq<seq<byte>>, x: seq<byte>, c: byte)
    ensures Join(front + [x + [c]]) == Join(front + [x]) + [c]
  {
    JoinSnoc(front, x);
    JoinSnoc(front, x + [c]);
    assert Join(front) + [SPACE] + (x + [c]) == (Join(front) + [SPACE] + x) + [c];
  }

  /** One more character: what it does to the cleaned string. */
  lemma CleanedSnoc(s: seq<byte>, c: byte)
    ensures c == SPACE ==> Cleaned(s + [c]) == Cleaned(s)
    ensures c != SPACE && AfterSpace(s) ==>
            Cleaned(s + [c]) == if Words(s) == [] then [c] else Cleaned(s) + [SPACE] + [c]
    ensures c != SPACE && !AfterSpace(s) ==> Cleaned(s + [c]) == Cleaned(s) + [c]
  {
    WordsSnoc(s, c);
    var w := Words(s);
    if c != SPACE {
      if AfterSpace(s) {
        JoinSnoc(w, [c]);
      } else {
        var front, x := w[..|w| - 1], w[|w| - 1];
        assert w == front + [x];
        JoinLonger(front, x, c);
      }
    }
  }

  /** Cleaning never makes a string longer. */
  lemma {:induction false} CleanedLength(s: seq<byte>)
    ensures |Cleaned(s)| <= |s|
    ensures AfterSpace(s) && s != [] ==> |Cleaned(s)| < |s|
  {
    if s == [] {
    } else {
      var front, c := s[..|s| - 1], s[|s| - 1];
      assert s == front + [c];
      CleanedLength(front);
      CleanedSnoc(front, c);
    }
  }

  /** The spaces at `r` do not matter for what has been cleaned so far. */
  lemma {:induction false} CleanedSpaces(s: seq<byte>, r: nat, k: nat)
    requires r <= k <= |s| && forall i | r <= i < k :: s[i] == SPACE
    ensures Words(s[..k]) == Words(s[..r]) && Cleaned(s[..k]) == Cleaned(s[..r])
    decreases k
  {
    if r == k {
    } else {
      CleanedSpaces(s, r, k - 1);
      assert s[..k] == s[..k - 1] + [s[k - 1]];
      WordsSnoc(s[..k - 1], SPACE);
    }
  }

  lemma NulFreeSnoc(s: seq<byte>, c: byte)
    ensures NulFree(s + [c]) <==> NulFree(s) && c != 0
  {
    if NulFree(s + [c]) {
      assert forall i | 0 <= i < |s| :: s[i] == (s + [c])[i];
      assert (s + [c])[|s|] == c;
    }
  }

  lemma {:induction false} CleanedNulFree(s: seq<byte>)
    requires NulFree(s)
    ensures NulFree(Cleaned(s))
  {
    if s == [] {
    } else {
      var front, c := s[..|s| - 1], s[|s| - 1];
      assert s == front + [c];
      NulFreeSnoc(front, c);
      CleanedNulFree(front);
      CleanedSnoc(front, c);
      NulFreeSnoc([], c);
      assert [] + [c] == [c];
      NulFreeSnoc(Cleaned(front), c);
      NulFreeSnoc(Cleaned(front), SPACE);
      NulFreeSnoc(Cleaned(front) + [SPACE], c);
    }
  }

  /** The two whitespace-skipping loops. */
  method SkipSpaces(a: array<byte>, from: nat, ghost start: nat, ghost s: seq<byte>)
    returns (read: nat, found: bool)
    requires start <= from <= start + |s| && RestAt(a, start, s, from - start)
    ensures from <= read <= start + |s| && (found <==> read > from) && a[read] != SPACE
    ensures Words(s[..read - start]) == Words(s[..from - start])
    ensures found ==> AfterSpace(s[..read - start]) && a[from] == SPACE
  {
    read, found := from, false;
    ghost var first, k := from - start, from - start;
    while a[read] == SPACE
      invariant first <= k <= |s| && read == start + k && (found <==> k > first)
      invariant forall i | first <= i < k :: s[i] == SPACE
      decreases |s| - k
    {
      assert a[read] == s[k];
      found := true;
      read, k := read + 1, k + 1;
    }
    SkippedSpaces(s, first, k);
  }

  lemma SkippedSpaces(s: seq<byte>, r: nat, k: nat)
    requires r <= k <= |s| && forall i | r <= i < k :: s[i] == SPACE
    ensures Words(s[..k]) == Words(s[..r]) && (k > r ==> AfterSpace(s[..k]))
  {
    CleanedSpaces(s, r, k);
  }

  /** The state of `CleanWhitespaces` between two characters: `r` read, `w` written. */
  ghost predicate Cleaning(a: array<byte>, start: nat, s: seq<byte>, r: nat, w: nat)
    reads a
  {
    && w <= r <= |s| && RestAt(a, start, s, r)
    && a[start..start + w] == Cleaned(s[..r])
    && (w == 0 <==> Words(s[..r]) == [])
  }

  /** What one more character does to the cleaned string and to the words. */
  lemma CharacterRead(s: seq<byte>, r: nat)
    requires r < |s| && s[r] != SPACE
    ensures var out := Cleaned(s[..r]);
            && Words(s[..r + 1]) != []
            && Cleaned(s[..r + 1]) ==
               (if !AfterSpace(s[..r]) then out + [s[r]]
                else if Words(s[..r]) == [] then [s[r]]
                else out + [SPACE] + [s[r]])
  {
    assert s[..r + 1] == s[..r] + [s[r]];
    CleanedSnoc(s[..r], s[r]);
    WordsSnoc(s[..r], s[r]);
  }

  /** The character at `read` moves to `from`, behind a space if `space` says so. */
  method PutCharacter(a: array<byte>, from: nat, read: nat, space: bool) returns (write: nat)
    requires from <= read < a.Length && (space ==> from < read)
    modifies a
    ensures write == from + (if space then 2 else 1)
    ensures a[from..write] == if space then [SPACE, old(a[read])] else [old(a[read])]
    ensures forall i | 0 <= i < a.Length && !(from <= i < write) :: a[i] == old(a[i])
  {
    write := from;
    if space {
      a[write] := SPACE;
      write := write + 1;
    }
    a[write] := a[read];
    write := write + 1;
  }

  lemma SliceSplit(s: seq<byte>, i: nat, j: nat, k: nat)
    requires i <= j <= k <= |s|
    ensures s[i..k] == s[i..j] + s[j..k]
  {
  }

  lemma SliceSame(now: seq<byte>, was: seq<byte>, i: nat, j: nat)
    requires i <= j <= |now| == |was| && forall k | i <= k < j :: now[k] == was[k]
    ensures now[i..j] == was[i..j]
  {
  }

  /** What `PutCharacter` adds to the cleaned string of length `w`. */
  lemma Copied(s: seq<byte>, r: nat, w: nat, space: bool) returns (tail: seq<byte>)
    requires r < |s| && s[r] != SPACE && w == |Cleaned(s[..r])| && (w == 0 <==> Words(s[..r]) == [])
    requires space <==> w > 0 && AfterSpace(s[..r])
    ensures tail == if space then [SPACE, s[r]] else [s[r]]
    ensures Cleaned(s[..r + 1]) == Cleaned(s[..r]) + tail
    ensures Words(s[..r + 1]) != [] && !AfterSpace(s[..r + 1])
  {
    tail := if space then [SPACE, s[r]] else [s[r]];
    CharacterRead(s, r);
    var out := Cleaned(s[..r]);
    if space {
      assert out + [SPACE] + [s[r]] == out + tail;
    } else if w == 0 {
      assert out + tail == [s[r]];
    }
  }

  /** `PutCharacter` behind what has been written from `start` on. */
  method PutBehind(a: array<byte>, start: nat, from: nat, read: nat, space: bool, ghost out: seq<byte>)
    returns (write: nat)
    requires start <= from <= read < a.Length && (space ==> from < read) && a[start..from] == out
    modifies a
    ensures write == from + (if space then 2 else 1)
    ensures a[start..write] == out + if space then [SPACE, old(a[read])] else [old(a[read])]
    ensures forall i | 0 <= i < a.Length && !(from <= i < write) :: a[i] == old(a[i])
  {
    ghost var was := a[..];
    write := PutCharacter(a, from, read, space);
    SliceSame(a[..], was, start, from);
    SliceSplit(a[..], start, from, write);
  }

  /** Copy the character at `read` down to `write`, behind a single space if one was found before it. */
  method CopyCharacter(a: array<byte>, start: nat, from: nat, read: nat, space: bool, ghost s: seq<byte>)
    returns (write: nat)
    requires start <= from <= read < start + |s| && Cleaning(a, start, s, read - start, from - start)
    requires s[read - start] != SPACE
    requires space <==> from > start && AfterSpace(s[..read - start])
    requires space ==> from < read
    modifies a
    ensures start < write <= read + 1 && Cleaning(a, start, s, read + 1 - start, write - start)
    ensures !AfterSpace(s[..read + 1 - start]) && OutsideUnchanged(a, start, |s|)
  {
    ghost var tail := Copied(s, read - start, from - start, space);
    write := PutBehind(a, start, from, read, space, Cleaned(s[..read - start]));
  }

  /** Between two words, or in front of the first one. */
  ghost predicate BetweenWords(a: array<byte>, start: nat, s: seq<byte>, read: nat, write: nat)
    reads a
  {
    && start <= write <= read <= start + |s| && Cleaning(a, start, s, read - start, write - start)
    && (if write == start then a[read] != SPACE else !AfterSpace(s[..read - start]))
  }

  /** One round of the loop of `CleanWhitespaces`; it ends with the string. */
  method CleanNext(a: array<byte>, start: nat, from: nat, write: nat, ghost s: seq<byte>)
    returns (read: nat, write': nat, ended: bool)
    requires NulFree(s) && BetweenWords(a, start, s, from, write)
    modifies a
    ensures ended ==> StringAt(a, start, Cleaned(s))
    ensures !ended ==> from < read && BetweenWords(a, start, s, read, write')
    ensures OutsideUnchanged(a, start, |s|)
  {
    var foundWhitespace;
    read, foundWhitespace := SkipSpaces(a, from, start, s);
    ended := a[read] == 0;
    if !ended {
      write' := CopyCharacter(a, start, write, read, foundWhitespace, s);
      read := read + 1;
    } else {
      assert s[..read - start] == s;
      EndString(a, start, write, s);
      write' := write;
    }
  }

  /**
   `ddproto_str_clean_whitespaces`: the write position never passes the read position, so no character is
   overwritten before it is read.
   */
  method CleanWhitespaces(a: array<byte>, start: nat, ghost s: seq<byte>)
    requires StringAt(a, start, s)
    modifies a
    ensures StringAt(a, start, Cleaned(s)) && OutsideUnchanged(a, start, |s|)
  {
    var write, ended := start, false;
    var read, leading := SkipSpaces(a, start, start, s);
    assert s[..0] == [] && Cleaned([]) == [];
    while !ended
      invariant ended ==> StringAt(a, start, Cleaned(s))
      invariant !ended ==> BetweenWords(a, start, s, read, write)
      invariant OutsideUnchanged(a, start, |s|)
      decreases if ended then 0 else 1, start + |s| - read
    {
      read, write, ended := CleanNext(a, start, read, write, s);
    }
  }

  /** The NUL behind the cleaned string. */
  method EndString(a: array<byte>, start: nat, write: nat, ghost s: seq<byte>)
    requires start <= write <= start + |s| < a.Length && NulFree(s) && a[start..write] == Cleaned(s)
    modifies a
    ensures StringAt(a, start, Cleaned(s)) && OutsideUnchanged(a, start, |s|)
  {
    CleanedNulFree(s);
    ghost var out := a[start..write];
    a[write] := 0;
    assert forall i | start <= i < write :: a[i] == out[i - start];
  }

  // ----- Cleaning and sanitising

  lemma WordsStep(s: seq<byte>, b: seq<byte>, words: seq<seq<byte>>, c: byte)
    requires Words(s) == words + Words(b) && (AfterSpace(s) <==> AfterSpace(b))
    ensures Words(s + [c]) == words + Words(b + [c])
  {
    WordsSnoc(s, c);
    WordsSnoc(b, c);
  }

  /** The words on the two sides of a space are the words of the whole. */
  lemma {:induction false} WordsConcat(a: seq<byte>, b: seq<byte>)
    ensures Words(a + [SPACE] + b) == Words(a) + Words(b)
  {
    if b == [] {
      assert a + [SPACE] + b == a + [SPACE];
      WordsSnoc(a, SPACE);
    } else {
      var n := |b| - 1;
      var s := a + [SPACE] + b[..n];
      WordsConcat(a, b[..n]);
      assert AfterSpace(s) == AfterSpace(b[..n]);
      WordsStep(s, b[..n], Words(a), b[n]);
      LastOfBoth(a, b);
    }
  }

  lemma LastOfBoth(a: seq<byte>, b: seq<byte>)
    requires b != []
    ensures var n := |b| - 1;
            a + [SPACE] + b == (a + [SPACE] + b[..n]) + [b[n]] && b == b[..n] + [b[n]]
  {
  }

  /** A map on characters that leaves the space alone. */
  ghost predicate KeepsSpace(f: byte -> byte) {
    f(SPACE) == SPACE
  }

  function Mapped(f: byte -> byte, s: seq<byte>): (r: seq<byte>)
    ensures |r| == |s|
  {
    seq(|s|, i requires 0 <= i < |s| => f(s[i]))
  }

  lemma MappedConcat(f: byte -> byte, a: seq<byte>, b: seq<byte>)
    ensures Mapped(f, a + b) == Mapped(f, a) + Mapped(f, b)
  {
  }

  lemma {:induction false} CleanedEnd(s: seq<byte>)
    ensures Words(s) == [] <==> Cleaned(s) == []
    ensures !AfterSpace(s) ==> Cleaned(s) != [] && Cleaned(s)[|Cleaned(s)| - 1] == s[|s| - 1]
  {
    if s == [] {
    } else {
      var front, c := s[..|s| - 1], s[|s| - 1];
      assert s == front + [c];
      CleanedEnd(front);
      CleanedSnoc(front, c);
      WordsSnoc(front, c);
    }
  }

  /** Cleaning before a character map that keeps spaces does not change the words afterwards. */
  lemma {:induction false} CleaningBeforeMap(f: byte -> byte, s: seq<byte>)
    requires KeepsSpace(f)
    ensures Words(Mapped(f, Cleaned(s))) == Words(Mapped(f, s))
  {
    if s == [] {
      assert Cleaned(s) == s;
    } else {
      var front, c := s[..|s| - 1], s[|s| - 1];
      assert s == front + [c] && Mapped(f, [c]) == [f(c)];
      CleaningBeforeMap(f, front);
      CleanedSnoc(front, c);
      CleanedEnd(front);
      MappedConcat(f, front, [c]);
      WordsSnoc(Mapped(f, front), f(c));
      if c == SPACE {
      } else if !AfterSpace(front) {
        MappedConcat(f, Cleaned(front), [c]);
        WordsSnoc(Mapped(f, Cleaned(front)), f(c));
      } else {
        AfterSpaceMap(f, front, c);
      }
    }
  }

  lemma AfterSpaceMap(f: byte -> byte, front: seq<byte>, c: byte)
    requires KeepsSpace(f) && AfterSpace(front) && c != SPACE
    requires Words(Mapped(f, Cleaned(front))) == Words(Mapped(f, front))
    ensures Words(Mapped(f, Cleaned(front + [c]))) == Words(Mapped(f, front + [c]))
  {
    CleanedSnoc(front, c);
    CleanedEnd(front);
    MappedConcat(f, front, [c]);
    assert Mapped(f, [c]) == [f(c)];
    if front == [] {
      assert Cleaned(front) == [];
      assert Mapped(f, front + [c]) == [f(c)];
    } else {
      var g := front[..|front| - 1];
      assert front == g + [SPACE];
      MappedConcat(f, g, [SPACE]);
      assert Mapped(f, [SPACE]) == [SPACE];
      WordsSnoc(Mapped(f, g), SPACE);
      WordsConcat(Mapped(f, g), [f(c)]);
      assert Mapped(f, front + [c]) == Mapped(f, g) + [SPACE] + [f(c)];
      if Words(front) == [] {
        assert Cleaned(front) == [] && Mapped(f, Cleaned(front)) == [];
        assert Mapped(f, Cleaned(front + [c])) == [f(c)];
      } else {
        MappedConcat(f, Cleaned(front), [SPACE]);
        MappedConcat(f, Cleaned(front) + [SPACE], [c]);
        WordsConcat(Mapped(f, Cleaned(front)), [f(c)]);
      }
    }
  }

  /** No space at either end and no two spaces in a row. */
  ghost predicate Tidy(s: seq<byte>) {
    && (s != [] ==> s[0] != SPACE && s[|s| - 1] != SPACE)
    && forall i | 0 < i < |s| :: s[i - 1] != SPACE || s[i] != SPACE
  }

  lemma {:induction false} CleanedIsTidy(s: seq<byte>)
    ensures Tidy(Cleaned(s))
  {
    if s == [] {
    } else {
      var front, c := s[..|s| - 1], s[|s| - 1];
      assert s == front + [c];
      CleanedIsTidy(front);
      CleanedEnd(front);
      CleanedSnoc(front, c);
    }
  }

  /** Cleaning keeps the words, so cleaning twice is cleaning once. */
  lemma CleanedIdempotent(s: seq<byte>)
    ensures Words(Cleaned(s)) == Words(s)
    ensures Cleaned(Cleaned(s)) == Cleaned(s)
  {
    var id := (c: byte) => c;
    CleaningBeforeMap(id, s);
    assert Mapped(id, s) == s && Mapped(id, Cleaned(s)) == Cleaned(s);
  }

  /** Cleaning may be done before sanitising too: a final cleaning gives the same string. */
  lemma CleanedCommutesWithSanitized(s: seq<byte>)
    ensures Cleaned(Sanitized(Cleaned(s))) == Cleaned(Sanitized(s))
    ensures Cleaned(SanitizedCc(Cleaned(s))) == Cleaned(SanitizedCc(s))
  {
    CleaningBeforeMap(SanitizedChar, s);
    CleaningBeforeMap(SanitizedCcChar, s);
    assert Mapped(SanitizedChar, s) == Sanitized(s) && Mapped(SanitizedChar, Cleaned(s)) == Sanitized(Cleaned(s));
    assert Mapped(SanitizedCcChar, s) == SanitizedCc(s)
        && Mapped(SanitizedCcChar, Cleaned(s)) == SanitizedCc(Cleaned(s));
  }
}
