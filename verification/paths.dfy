/**
 * File paths and the two string operations the classifier applies to them:
 * taking the last path element (`Path.fileName`) and lower-casing it
 * (`String.lowercase()`).
 */
module Paths {

  /** A path as text, elements separated by `Separator`. */
  type Path = string

  const Separator: char := '/'

  /**
   * The last element of a path: what follows its last separator. For the
   * regular files a directory walk yields, this is the file's own name.
   */
  function FileName(p: Path): (name: string)
    ensures |name| <= |p|
    decreases |p|
  {
    if |p| == 0 then []
    else if p[|p| - 1] == Separator then []
    else FileName(p[..|p| - 1]) + [p[|p| - 1]]
  }

  /** The file name contains no separator. */
  lemma {:induction false} FileNameHasNoSeparator(p: Path)
    ensures Separator !in FileName(p)
    decreases |p|
  {
    if |p| > 0 && p[|p| - 1] != Separator {
      FileNameHasNoSeparator(p[..|p| - 1]);
    }
  }

  /** The file name ends the path. */
  lemma {:induction false} FileNameIsSuffix(p: Path)
    ensures p[|p| - |FileName(p)|..] == FileName(p)
    decreases |p|
  {
    if |p| > 0 && p[|p| - 1] != Separator {
      var q, c := p[..|p| - 1], p[|p| - 1];
      var name := FileName(q);
      FileNameIsSuffix(q);
      assert p[|p| - |name| - 1..] == q[|q| - |name|..] + [c];
    }
  }

  /** The file name is the whole path or follows a separator. */
  lemma {:induction false} FileNameFollowsSeparator(p: Path)
    ensures |FileName(p)| < |p| ==> p[|p| - |FileName(p)| - 1] == Separator
    decreases |p|
  {
    if |p| > 0 && p[|p| - 1] != Separator {
      var q := p[..|p| - 1];
      FileNameFollowsSeparator(q);
      if |FileName(q)| < |q| {
        assert p[|p| - |FileName(q)| - 2] == q[|q| - |FileName(q)| - 1];
      }
    }
  }

  /**
   * The file name is the longest suffix of the path without a separator:
   * it has none, it ends the path, and it is the whole path or follows a
   * separator.
   */
  lemma {:induction false} FileNameIsLastElement(p: Path)
    ensures Separator !in FileName(p)
    ensures p[|p| - |FileName(p)|..] == FileName(p)
    ensures |FileName(p)| < |p| ==> p[|p| - |FileName(p)| - 1] == Separator
  {
    FileNameHasNoSeparator(p);
    FileNameIsSuffix(p);
    FileNameFollowsSeparator(p);
  }

  /** A path made of a directory and, below it, a file called `name`. */
  function Join(dir: Path, name: string): Path
  {
    dir + [Separator] + name
  }

  /** Appending one character to a path either starts a new element or extends the last one. */
  lemma {:induction false} FileNameSnoc(q: Path, c: char)
    ensures c == Separator ==> FileName(q + [c]) == []
    ensures c != Separator ==> FileName(q + [c]) == FileName(q) + [c]
  {
    assert (q + [c])[..|q|] == q;
  }

  /** The directory part of a path never influences its file name. */
  lemma {:induction false} FileNameOfJoin(dir: Path, name: string)
    requires Separator !in name
    ensures FileName(Join(dir, name)) == name
    decreases |name|
  {
    if |name| == 0 {
      FileNameSnoc(dir, Separator);
    } else {
      var n := |name| - 1;
      FileNameOfJoin(dir, name[..n]);
      assert Join(dir, name) == Join(dir, name[..n]) + [name[n]];
      FileNameSnoc(Join(dir, name[..n]), name[n]);
      assert name[..n] + [name[n]] == name;
    }
  }

  /** A path without separators is its own file name. */
  lemma {:induction false} NoSeparatorIsFileName(name: string)
    requires Separator !in name
    ensures FileName(name) == name
    decreases |name|
  {
    if |name| > 0 {
      var n := |name| - 1;
      NoSeparatorIsFileName(name[..n]);
      FileNameSnoc(name[..n], name[n]);
      assert name[..n] + [name[n]] == name;
    }
  }

  /** ASCII lower-casing of one character; every other character is kept. */
  function ToLowerChar(c: char): (r: char)
    ensures 'A' <= c <= 'Z' ==> 'a' <= r <= 'z'
    ensures !('A' <= c <= 'Z') ==> r == c
  {
    if 'A' <= c <= 'Z' then (c as int - 'A' as int + 'a' as int) as char else c
  }

  /** `lowercase()`, character by character. */
  function ToLower(s: string): (r: string)
    ensures |r| == |s|
    ensures forall i :: 0 <= i < |s| ==> r[i] == ToLowerChar(s[i])
  {
    seq(|s|, i requires 0 <= i < |s| => ToLowerChar(s[i]))
  }

  /** Lower-casing a text with one more character. */
  lemma {:induction false} ToLowerSnoc(q: string, c: char)
    ensures ToLower(q + [c]) == ToLower(q) + [ToLowerChar(c)]
  {
  }

  /** Lower-casing keeps the separators where they are, so it commutes with `FileName`. */
  lemma {:induction false} FileNameOfLower(p: Path)
    ensures FileName(ToLower(p)) == ToLower(FileName(p))
    decreases |p|
  {
    if |p| > 0 {
      var q, c := p[..|p| - 1], p[|p| - 1];
      assert p == q + [c];
      FileNameOfLower(q);
      ToLowerSnoc(q, c);
      FileNameSnoc(q, c);
      FileNameSnoc(ToLower(q), ToLowerChar(c));
      ToLowerSnoc(FileName(q), c);
    }
  }

  /** `s.startsWith(prefix)`. */
  predicate StartsWith(s: string, prefix: string)
  {
    |prefix| <= |s| && s[..|prefix|] == prefix
  }

  /** `s.endsWith(suffix)`. */
  predicate EndsWith(s: string, suffix: string)
  {
    |suffix| <= |s| && s[|s| - |suffix|..] == suffix
  }
}
