/**
 The extension of a file name, computed as `name.split('.').pop()`: the text
 after the last dot, the whole name when there is no dot, and the empty text
 when the name ends in a dot.
 */
module FileName {

  const Dot: char := '.'

  /** JavaScript's String.prototype.split with a one-character separator: the
      pieces between separators, never fewer than one. */
  function Split(s: string, sep: char): (parts: seq<string>)
    ensures |parts| >= 1
    ensures forall k :: 0 <= k < |parts| ==> sep !in parts[k]
    ensures |parts| == 1 <==> sep !in s
    ensures |parts| == 1 ==> parts[0] == s
  {
    if s == [] then [[]]
    else
      var rest := Split(s[1..], sep);
      if s[0] == sep then [[]] + rest
      else [[s[0]] + rest[0]] + rest[1..]
  }

  /** Array.prototype.join with a one-character separator. */
  function Join(parts: seq<string>, sep: char): string
    requires |parts| >= 1
  {
    if |parts| == 1 then parts[0] else parts[0] + [sep] + Join(parts[1..], sep)
  }

  /** Joining the pieces of a split gives back the original text. */
  lemma {:induction false} JoinSplit(s: string, sep: char)
    ensures Join(Split(s, sep), sep) == s
  {
    if s != [] {
      var rest := Split(s[1..], sep);
      JoinSplit(s[1..], sep);
      if s[0] == sep {
        assert Split(s, sep)[1..] == rest;
      } else {
        var parts := Split(s, sep);
        if |rest| == 1 {
          assert parts == [[s[0]] + rest[0]];
        } else {
          assert parts[1..] == rest[1..];
          assert Join(rest, sep) == rest[0] + [sep] + Join(rest[1..], sep);
        }
      }
    }
  }

  /** The extension as the plugin computes it: the last piece of the split on '.'. */
  function Extension(name: string): (ext: string)
    ensures Dot !in ext
    ensures Dot !in name ==> ext == name
  {
    var parts := Split(name, Dot);
    parts[|parts| - 1]
  }

  /** `ext` is a dot-free suffix of `name` that is either all of `name` or
      starts right after a dot: the text after the last dot. */
  predicate IsTextAfterLastDot(name: string, ext: string)
  {
    |ext| <= |name| && name[|name| - |ext|..] == ext && Dot !in ext &&
    (if Dot in name then |ext| < |name| && name[|name| - |ext| - 1] == Dot else ext == name)
  }

  /** The extension is the text after the last dot, or the whole name when there is none. */
  lemma {:induction false} ExtensionAfterLastDot(name: string)
    ensures IsTextAfterLastDot(name, Extension(name))
  {
    if name != [] {
      var t := name[1..];
      var rest := Split(t, Dot);
      var et := Extension(t);
      ExtensionAfterLastDot(t);
      if name[0] == Dot {
        assert Split(name, Dot) == [[]] + rest;
        assert Extension(name) == et;
        assert name[|name| - |et|..] == t[|t| - |et|..];
        if Dot in t {
          assert name[|name| - |et| - 1] == t[|t| - |et| - 1];
        } else {
          assert et == t;
        }
      } else if |rest| == 1 {
        assert Extension(name) == [name[0]] + t == name;
        assert Dot !in name by {
          assert forall k :: 0 < k < |name| ==> name[k] == t[k - 1];
        }
      } else {
        assert Split(name, Dot)[|Split(name, Dot)| - 1] == rest[|rest| - 1];
        assert Extension(name) == et;
        assert Dot in t;
        assert name[|name| - |et|..] == t[|t| - |et|..];
        assert name[|name| - |et| - 1] == t[|t| - |et| - 1];
      }
    }
  }

  /** Only one text is the text after the last dot, so the extension is determined by that description. */
  lemma TextAfterLastDotUnique(name: string, e1: string, e2: string)
    requires IsTextAfterLastDot(name, e1) && IsTextAfterLastDot(name, e2)
    ensures e1 == e2
  {
  }

  /** A name ending in a dot has the empty extension. */
  lemma ExtensionOfTrailingDot(name: string)
    requires |name| > 0 && name[|name| - 1] == Dot
    ensures Extension(name) == []
  {
    ExtensionAfterLastDot(name);
  }

  /** The name is the part before the last dot, the dot and the extension. */
  lemma NameSplitsAtLastDot(name: string)
    requires Dot in name
    ensures var ext := Extension(name);
      |ext| < |name| && name == name[..|name| - |ext| - 1] + [Dot] + ext
  {
    ExtensionAfterLastDot(name);
    var ext := Extension(name);
    var n := |name| - |ext| - 1;
    assert name == name[..n] + name[n..n + 1] + name[n + 1..];
  }

  /** The extension of a name with several dots is the part after the last one. */
  lemma ExtensionOfDottedName()
    ensures Extension("report.final.pdf") == "pdf"
  {
    var name := "report.final.pdf";
    assert Dot !in "pdf";
    assert name[12] == Dot && name[13..] == "pdf";
    assert IsTextAfterLastDot(name, "pdf");
    ExtensionAfterLastDot(name);
    TextAfterLastDotUnique(name, Extension(name), "pdf");
  }

  /** A name without a dot is its own extension. */
  lemma ExtensionOfPlainName()
    ensures Extension("README") == "README"
  {
    ExtensionAfterLastDot("README");
  }
}
