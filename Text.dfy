/**
 * String helpers the pages rely on: `toLowerCase` (ASCII letters only),
 * `String.prototype.includes` and `split` followed by `pop`.
 */
module Text {

  /** `toLowerCase` on one character; letters outside ASCII are left as they are. */
  function LowerChar(c: char): char {
    if 'A' <= c <= 'Z' then (c as int + 32) as char else c
  }

  /** `toLowerCase` on a string, character by character. */
  function Lower(s: string): (lowered: string)
    ensures |lowered| == |s|
    ensures forall i :: 0 <= i < |lowered| ==> !('A' <= lowered[i] <= 'Z')
    ensures forall i :: 0 <= i < |s| && !('A' <= s[i] <= 'Z') ==> lowered[i] == s[i]
    ensures forall i :: 0 <= i < |s| && 'A' <= s[i] <= 'Z' ==>
      lowered[i] == "abcdefghijklmnopqrstuvwxyz"[s[i] as int - 'A' as int]
  {
    seq(|s|, i requires 0 <= i < |s| => LowerChar(s[i]))
  }

  /** Lowering changes no length and leaves no upper-case ASCII letter behind;
      lowering twice is lowering once. */
  lemma LowerFacts(s: string)
    ensures |Lower(s)| == |s|
    ensures forall i :: 0 <= i < |s| ==> !('A' <= Lower(s)[i] <= 'Z')
    ensures Lower(Lower(s)) == Lower(s)
    ensures Lower(s) == "" <==> s == ""
  {
    assert forall i :: 0 <= i < |s| ==> LowerChar(LowerChar(s[i])) == LowerChar(s[i]);
  }

  /** A string without upper-case ASCII letters is its own lower-cased form. */
  lemma LowerOfLowercase(s: string)
    requires forall i :: 0 <= i < |s| ==> !('A' <= s[i] <= 'Z')
    ensures Lower(s) == s
  {
  }

  /** t occurs in s starting at position i. */
  ghost predicate OccursAt(s: string, t: string, i: int) {
    0 <= i && i + |t| <= |s| && s[i..i + |t|] == t
  }

  /** The specification of `s.includes(t)`: t occurs in s at some position. */
  ghost predicate Contains(s: string, t: string) {
    exists i :: OccursAt(s, t, i)
  }

  /** `s.includes(t)`, computed by trying each start position in turn. */
  function Includes(s: string, t: string): (found: bool)
    ensures found ==> |t| <= |s|
    ensures t == [] ==> found
    decreases |s|
  {
    if |t| > |s| then false
    else if s[..|t|] == t then true
    else Includes(s[1..], t)
  }

  /** An occurrence in the tail of s is an occurrence in s one position later. */
  lemma OccursInTail(s: string, t: string, i: int)
    requires s != [] && 0 <= i
    ensures OccursAt(s[1..], t, i) <==> OccursAt(s, t, i + 1)
  {
    if i + |t| <= |s| - 1 {
      assert s[1..][i..i + |t|] == s[i + 1..i + 1 + |t|];
    }
  }

  /** The scan finds t exactly when t occurs somewhere in s. */
  lemma {:induction false} IncludesIsContains(s: string, t: string)
    ensures Includes(s, t) <==> Contains(s, t)
    decreases |s|
  {
    if |t| > |s| {
    } else if s[..|t|] == t {
      assert OccursAt(s, t, 0);
    } else {
      IncludesIsContains(s[1..], t);
      if Includes(s[1..], t) {
        var i :| OccursAt(s[1..], t, i);
        OccursInTail(s, t, i);
      }
      if Contains(s, t) {
        var i :| OccursAt(s, t, i);
        assert i != 0;
        OccursInTail(s, t, i - 1);
      }
    }
  }

  /** The empty string is included in every string. */
  lemma {:induction false} IncludesEmpty(s: string)
    ensures Includes(s, "")
  {
    assert s[..0] == "";
  }

  /** A string whose first character does not occur in s is not included in s. */
  lemma AbsentFirstChar(s: string, t: string)
    requires t != [] && t[0] !in s
    ensures !Includes(s, t)
  {
    IncludesIsContains(s, t);
  }

  /** A string found at a given position is included. */
  lemma PresentAt(s: string, t: string, i: nat)
    requires i + |t| <= |s| && s[i..i + |t|] == t
    ensures Includes(s, t)
  {
    IncludesIsContains(s, t);
    assert OccursAt(s, t, i);
  }

  /** `s.split(sep)`: the pieces between separators, always at least one. */
  function Split(s: string, sep: char): (parts: seq<string>)
    ensures |parts| >= 1
  {
    if s == [] then [[]]
    else
      var rest := Split(s[1..], sep);
      if s[0] == sep then [[]] + rest
      else [[s[0]] + rest[0]] + rest[1..]
  }

  /** `parts.join(sep)`, the inverse of Split. */
  function Join(parts: seq<string>, sep: char): string
    requires |parts| >= 1
  {
    if |parts| == 1 then parts[0] else parts[0] + [sep] + Join(parts[1..], sep)
  }

  /** Joining the pieces with the separator gives back the original string. */
  lemma {:induction false} JoinSplit(s: string, sep: char)
    ensures Join(Split(s, sep), sep) == s
  {
    if s != [] {
      var rest := Split(s[1..], sep);
      JoinSplit(s[1..], sep);
      if s[0] == sep {
        assert Split(s, sep)[1..] == rest;
      } else {
        var parts := Split(s, sep);
        if |rest| == 1 {
          assert parts == [[s[0]] + rest[0]];
        } else {
          assert parts[1..] == rest[1..];
          assert Join(rest, sep) == rest[0] + [sep] + Join(rest[1..], sep);
          assert s == [s[0]] + s[1..];
        }
      }
    }
  }

  /** No piece contains the separator. */
  lemma {:induction false} SplitPiecesAreSeparatorFree(s: string, sep: char)
    ensures forall k :: 0 <= k < |Split(s, sep)| ==> sep !in Split(s, sep)[k]
  {
    if s != [] {
      SplitPiecesAreSeparatorFree(s[1..], sep);
    }
  }

  /** Splitting separator-free pieces joined by the separator gives the pieces back. */
  lemma {:induction false} SplitJoin(parts: seq<string>, sep: char)
    requires |parts| >= 1
    requires forall k :: 0 <= k < |parts| ==> sep !in parts[k]
    ensures Split(Join(parts, sep), sep) == parts
    decreases |parts|, |parts[0]|
  {
    var s := Join(parts, sep);
    if parts[0] == [] {
      if |parts| > 1 {
        SplitJoin(parts[1..], sep);
        assert s == [sep] + Join(parts[1..], sep);
        assert s[1..] == Join(parts[1..], sep);
      }
    } else {
      var tail := [parts[0][1..]] + parts[1..];
      assert tail[1..] == parts[1..];
      SplitJoin(tail, sep);
      if |parts| == 1 {
        assert s[1..] == Join(tail, sep);
      } else {
        assert s == parts[0] + [sep] + Join(parts[1..], sep);
        assert s[1..] == Join(tail, sep);
      }
      assert s[0] == parts[0][0];
      assert [parts[0][0]] + parts[0][1..] == parts[0];
    }
  }

  /** `name.split('.').pop()`: the text after the last dot, or the whole name. */
  function Extension(name: string): (ext: string)
    ensures '.' !in ext
  {
    var parts := Split(name, '.');
    SplitPiecesAreSeparatorFree(name, '.');
    parts[|parts| - 1]
  }

  /** A string splits into a single piece exactly when it holds no separator. */
  lemma SinglePieceIffSeparatorFree(s: string, sep: char)
    ensures |Split(s, sep)| == 1 <==> sep !in s
  {
    JoinSplit(s, sep);
    SplitPiecesAreSeparatorFree(s, sep);
    var parts := Split(s, sep);
    if |parts| > 1 {
      assert s == parts[0] + [sep] + Join(parts[1..], sep);
      assert s[|parts[0]|] == sep;
    }
  }

  /** How the extension of a name relates to the extension of its tail. */
  lemma ExtensionOfTail(name: string)
    requires name != []
    ensures name[0] == '.' ==> Extension(name) == Extension(name[1..])
    ensures name[0] != '.' && '.' in name[1..] ==> Extension(name) == Extension(name[1..])
    ensures name[0] != '.' && '.' !in name[1..] ==> Extension(name) == name
  {
    var rest := Split(name[1..], '.');
    SinglePieceIffSeparatorFree(name[1..], '.');
    if name[0] != '.' && |rest| == 1 {
      JoinSplit(name[1..], '.');
      assert [name[0]] + name[1..] == name;
    }
  }

  /** One step of the extension's characterisation, stated on plain strings:
      given the dot-free suffix of the tail, the extension of the name (the
      whole name, or the tail's extension) is a dot-free suffix of the name. */
  lemma DotFreeSuffixStep(name: string, ext: string, tailExt: string)
    requires name != [] && |tailExt| <= |name| - 1
    requires name[1..][|name| - 1 - |tailExt|..] == tailExt && '.' !in tailExt
    requires |tailExt| < |name| - 1 ==> name[1..][|name| - 1 - |tailExt| - 1] == '.'
    requires name[0] != '.' && '.' !in name[1..] ==> ext == name
    requires name[0] == '.' || '.' in name[1..] ==> ext == tailExt
    ensures |ext| <= |name| && name[|name| - |ext|..] == ext && '.' !in ext
    ensures |ext| < |name| ==> name[|name| - |ext| - 1] == '.'
  {
    if name[0] != '.' && '.' !in name[1..] {
      assert name == [name[0]] + name[1..];
    } else {
      assert name[|name| - |ext|..] == name[1..][|name| - 1 - |ext|..];
      if |ext| == |name| - 1 {
        assert ext == name[1..];
      }
    }
  }

  /** The extension is the longest dot-free suffix of the name: it ends the name,
      holds no dot, and is either the whole name or preceded by a dot. */
  lemma {:induction false} ExtensionIsLastDotFreeSuffix(name: string)
    ensures |Extension(name)| <= |name|
    ensures name[|name| - |Extension(name)|..] == Extension(name)
    ensures '.' !in Extension(name)
    ensures |Extension(name)| < |name| ==> name[|name| - |Extension(name)| - 1] == '.'
  {
    if name != [] {
      ExtensionIsLastDotFreeSuffix(name[1..]);
      ExtensionOfTail(name);
      DotFreeSuffixStep(name, Extension(name), Extension(name[1..]));
    }
  }

  /** A name without a dot is its own extension, and only such a name is. */
  lemma ExtensionIsWholeNameIffNoDot(name: string)
    ensures Extension(name) == name <==> '.' !in name
  {
    ExtensionIsLastDotFreeSuffix(name);
  }
}
