/**
 * Path inspection used when the wallpaper source is a directory: the file
 * name, its extension as Rust's `Path::extension` computes it, and the
 * case-insensitive `.jpg` filter applied to the directory walk.
 *
 * Paths are character strings; comparing characters instead of UTF-8 bytes
 * does not change the outcome of an ASCII-only comparison against "jpg".
 */
module Paths {
  import opened Wrappers
  import opened Protocol

  /** `u8::to_ascii_lowercase` on characters: only 'A'..'Z' change. */
  function ToAsciiLowercase(c: char): char
  {
    if 'A' <= c <= 'Z' then (c as int + 32) as char else c
  }

  /** `eq_ignore_ascii_case`: same length and equal after ASCII lower-casing, position by position. */
  function EqIgnoreAsciiCase(a: string, b: string): (r: bool)
    ensures r <==> |a| == |b| && forall i :: 0 <= i < |a| ==> ToAsciiLowercase(a[i]) == ToAsciiLowercase(b[i])
  {
    if |a| != |b| then false
    else if a == [] then true
    else
      var rest := EqIgnoreAsciiCase(a[1..], b[1..]);
      assert forall i :: 1 <= i < |a| ==> a[1..][i - 1] == a[i] && b[1..][i - 1] == b[i];
      ToAsciiLowercase(a[0]) == ToAsciiLowercase(b[0]) && rest
  }

  /** Position of the last occurrence of `c` in `s`. */
  function LastIndexOf(s: string, c: char): (r: Option<nat>)
    ensures r.None? <==> c !in s
    ensures r.Some? ==> r.value < |s| && s[r.value] == c
    ensures r.Some? ==> forall j :: r.value < j < |s| ==> s[j] != c
  {
    if |s| == 0 then None
    else if s[|s| - 1] == c then Some(|s| - 1)
    else
      var r := LastIndexOf(s[..|s| - 1], c);
      assert forall j :: 0 <= j < |s| - 1 ==> s[..|s| - 1][j] == s[j];
      assert c in s <==> c in s[..|s| - 1] by {
        if c in s {
          var k :| 0 <= k < |s| && s[k] == c;
          assert s[..|s| - 1][k] == c;
        }
      }
      r
  }

  /** The last component of a path: everything after the last '/'. */
  function FileName(p: Path): (name: string)
    ensures '/' !in name
    ensures |name| <= |p| && name == p[|p| - |name|..]
    ensures |name| < |p| ==> p[|p| - |name| - 1] == '/'
  {
    match LastIndexOf(p, '/')
    case None => p
    case Some(i) => p[i + 1..]
  }

  /**
   * `Path::extension`: the part of the file name after its last '.', absent
   * when the name has no '.', when its only '.' is the first character
   * (".jpg" has no extension) and when the name is "..".
   */
  function Extension(p: Path): (e: Option<string>)
  {
    NameExtension(FileName(p))
  }

  /** The extension of a file name, split off at its last dot as `rsplit_file_at_dot` does. */
  function NameExtension(name: string): Option<string>
  {
    if name == ".." then None
    else
      match LastIndexOf(name, '.')
      case None => None
      case Some(i) => if i == 0 then None else Some(name[i + 1..])
  }

  /**
   * A file name has an extension exactly when it is not ".." and has a dot
   * after its first character; the extension holds no dot and is what
   * follows the name's last dot.
   */
  lemma NameExtensionSpec(name: string)
    ensures NameExtension(name).Some? <==> name != ".." && exists i :: 0 < i < |name| && name[i] == '.'
    ensures NameExtension(name).Some? ==>
      var e := NameExtension(name).value;
      && '.' !in e && |e| + 1 < |name|
      && name[|name| - |e| - 1] == '.' && name[|name| - |e|..] == e
  {
    if name != ".." {
      var last := LastIndexOf(name, '.');
      if last.Some? && last.value > 0 {
        var i := last.value;
        assert name[|name| - |name[i + 1..]| - 1] == '.';
        var tail := name[i + 1..];
        forall j | 0 <= j < |tail| ensures tail[j] != '.' {
          assert tail[j] == name[i + 1 + j];
        }
      }
    }
  }

  /** The last occurrence of `c` is the one with no `c` after it. */
  lemma LastIndexOfAt(s: string, c: char, i: nat)
    requires i < |s| && s[i] == c
    requires forall j :: i < j < |s| ==> s[j] != c
    ensures LastIndexOf(s, c) == Some(i)
  {
    assert c in s;
  }

  /** The predicate of the directory walk: the extension is "jpg", ignoring ASCII case. */
  predicate HasJpgExtension(p: Path)
  {
    var e := Extension(p);
    e.Some? && EqIgnoreAsciiCase(e.value, "jpg")
  }

  /** The same test read off the end of the path: ".jpg" in any case, after at least one character of the file name. */
  predicate EndsInJpg(p: Path)
  {
    && |p| >= 5
    && p[|p| - 5] != '/'
    && p[|p| - 4] == '.'
    && ToAsciiLowercase(p[|p| - 3]) == 'j'
    && ToAsciiLowercase(p[|p| - 2]) == 'p'
    && ToAsciiLowercase(p[|p| - 1]) == 'g'
  }

  /** The extension test of the walk and the test on the end of the path agree on every path. */
  lemma JpgTestsAgree(p: Path)
    ensures HasJpgExtension(p) <==> EndsInJpg(p)
  {
    if EndsInJpg(p) {
      EndingGivesExtension(p);
    }
    if HasJpgExtension(p) {
      ExtensionGivesEnding(p);
    }
  }

  /** A character that lower-cases to a letter is neither a dot nor a slash. */
  lemma LetterIsNoSeparator(c: char)
    requires 'a' <= ToAsciiLowercase(c) <= 'z'
    ensures c != '.' && c != '/'
  {
  }

  lemma EndingGivesExtension(p: Path)
    requires EndsInJpg(p)
    ensures HasJpgExtension(p)
  {
    var n := |p|;
    LetterIsNoSeparator(p[n - 3]);
    LetterIsNoSeparator(p[n - 2]);
    LetterIsNoSeparator(p[n - 1]);
    var slash := LastIndexOf(p, '/');
    var name := FileName(p);
    if slash.Some? {
      assert slash.value < n - 5 by {
        assert p[slash.value] == '/';
      }
    }
    assert |name| >= 5;
    var m := |name|;
    assert name[m - 4] == p[n - 4];
    assert name[m - 3] == p[n - 3] && name[m - 2] == p[n - 2] && name[m - 1] == p[n - 1];
    forall j | m - 4 < j < m ensures name[j] != '.' {
      assert j == m - 3 || j == m - 2 || j == m - 1;
    }
    LastIndexOfAt(name, '.', m - 4);
    var e := name[m - 3..];
    assert NameExtension(name) == Some(e);
    assert e[0] == p[n - 3] && e[1] == p[n - 2] && e[2] == p[n - 1];
  }

  lemma ExtensionGivesEnding(p: Path)
    requires HasJpgExtension(p)
    ensures EndsInJpg(p)
  {
    var name := FileName(p);
    NameExtensionSpec(name);
    var e := Extension(p).value;
    assert |e| == 3;
    assert |name| >= 5;
    assert name[|name| - 5] in name;
    forall j | |name| - 5 <= j < |name| ensures p[|p| - |name| + j] == name[j] {
    }
    assert name[|name| - 3..] == e;
    assert e[0] == name[|name| - 3] && e[1] == name[|name| - 2] && e[2] == name[|name| - 1];
  }

  /** The walk's result kept to the `.jpg` files, in walk order. */
  function JpgFiles(listing: seq<Path>): (files: seq<Path>)
    ensures forall p :: p in files <==> p in listing && EndsInJpg(p)
    ensures |files| <= |listing|
  {
    if listing == [] then []
    else (if EndsInJpg(listing[0]) then [listing[0]] else []) + JpgFiles(listing[1..])
  }

  /** `JpgFiles` keeps every `.jpg` path as many times as the walk lists it, and no other path. */
  lemma {:induction false} JpgFilesCounts(listing: seq<Path>, p: Path)
    ensures multiset(JpgFiles(listing))[p] == if EndsInJpg(p) then multiset(listing)[p] else 0
    decreases |listing|
  {
    if listing != [] {
      JpgFilesCounts(listing[1..], p);
      assert listing == [listing[0]] + listing[1..];
      assert multiset(listing) == multiset([listing[0]]) + multiset(listing[1..]);
      var head := if EndsInJpg(listing[0]) then [listing[0]] else [];
      assert JpgFiles(listing) == head + JpgFiles(listing[1..]);
      assert multiset(JpgFiles(listing)) == multiset(head) + multiset(JpgFiles(listing[1..]));
    }
  }

  /** `JpgFiles` keeps the order of the walk: it is a subsequence of the listing. */
  ghost predicate IsSubsequence(small: seq<Path>, big: seq<Path>)
    decreases |big|
  {
    if small == [] then true
    else if big == [] then false
    else if small[0] == big[0] then IsSubsequence(small[1..], big[1..])
    else IsSubsequence(small, big[1..])
  }

  lemma {:induction false} JpgFilesKeepsOrder(listing: seq<Path>)
    ensures IsSubsequence(JpgFiles(listing), listing)
    decreases |listing|
  {
    if listing != [] {
      JpgFilesKeepsOrder(listing[1..]);
      if EndsInJpg(listing[0]) {
        assert JpgFiles(listing) == [listing[0]] + JpgFiles(listing[1..]);
        assert JpgFiles(listing)[1..] == JpgFiles(listing[1..]);
      } else {
        assert JpgFiles(listing) == JpgFiles(listing[1..]);
        SubsequenceSkip(JpgFiles(listing[1..]), listing);
      }
    }
  }

  /** Skipping one more element of the listing keeps a subsequence a subsequence. */
  lemma {:induction false} SubsequenceSkip(small: seq<Path>, big: seq<Path>)
    requires big != [] && IsSubsequence(small, big[1..])
    ensures IsSubsequence(small, big)
    decreases |big|, |small|
  {
    if small != [] && small[0] == big[0] {
      SubsequenceDrop(small, big[1..]);
    }
  }

  /** Dropping the head of a subsequence keeps it a subsequence. */
  lemma {:induction false} SubsequenceDrop(small: seq<Path>, big: seq<Path>)
    requires small != [] && IsSubsequence(small, big)
    ensures IsSubsequence(small[1..], big)
    decreases |big|, |small|
  {
    if big != [] {
      if small[0] == big[0] {
        SubsequenceSkip(small[1..], big);
      } else {
        SubsequenceDrop(small, big[1..]);
        SubsequenceSkip(small[1..], big);
      }
    }
  }

  /** Upper case "JPG" matches. */
  lemma {:induction false} UpperCaseJpgMatches()
    ensures HasJpgExtension("walls/b.JPG")
  {
    var p := "walls/b.JPG";
    LastIndexOfAt(p, '/', 5);
    assert FileName(p) == "b.JPG";
    LastIndexOfAt("b.JPG", '.', 1);
  }

  /** A hidden file named ".jpg" has no extension, so it is not picked. */
  lemma {:induction false} HiddenJpgRejected()
    ensures !HasJpgExtension("walls/.jpg")
  {
    var p := "walls/.jpg";
    LastIndexOfAt(p, '/', 5);
    assert FileName(p) == ".jpg";
    LastIndexOfAt(".jpg", '.', 0);
  }

  /** The comparison is exact up to case: "jpeg" is not "jpg". */
  lemma {:induction false} JpegRejected()
    ensures !HasJpgExtension("walls/a.jpeg")
  {
    var p := "walls/a.jpeg";
    LastIndexOfAt(p, '/', 5);
    assert FileName(p) == "a.jpeg";
    LastIndexOfAt("a.jpeg", '.', 1);
  }
}
