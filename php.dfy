/**
 * The PHP string primitives the modelled code relies on, over `seq<char>`:
 * truthiness of strings, `dirname`, `strpos(...) === 0`, `strpos(...) !== false`,
 * `strtolower` and `str_replace`.
 */
module Php {

  /** PHP's `empty()` and `!$s` on a string: the empty string and "0" are falsy. */
  predicate Falsy(s: string) {
    s == "" || s == "0"
  }

  /** `strpos($s, $prefix) === 0`. */
  predicate StartsWith(s: string, prefix: string) {
    |prefix| <= |s| && s[..|prefix|] == prefix
  }

  /** `strpos($haystack, $needle) !== false` for a non-empty needle. */
  predicate Contains(haystack: string, needle: string) {
    exists i | 0 <= i <= |haystack| :: OccursAt(haystack, needle, i)
  }

  /** The needle occurs in the haystack at index `i`. */
  predicate OccursAt(haystack: string, needle: string, i: int) {
    0 <= i && i + |needle| <= |haystack| && haystack[i..i + |needle|] == needle
  }

  /** `strtolower`: ASCII letters only, as PHP 8 does it independently of the locale. */
  function ToLower(s: string): (r: string)
    ensures |r| == |s|
    ensures forall i :: 0 <= i < |s| ==> r[i] == LowerChar(s[i])
  {
    seq(|s|, i requires 0 <= i < |s| => LowerChar(s[i]))
  }

  /** An ASCII capital letter. */
  predicate IsUpper(c: char) {
    'A' <= c <= 'Z'
  }

  /** No ASCII capital letter occurs in `s`. */
  predicate NoUpper(s: string) {
    forall i :: 0 <= i < |s| ==> !IsUpper(s[i])
  }

  function LowerChar(c: char): (d: char)
    ensures IsUpper(c) ==> 'a' <= d <= 'z'
    ensures !IsUpper(c) ==> d == c
  {
    if IsUpper(c) then (c as int - 'A' as int + 'a' as int) as char else c
  }

  /**
   * `str_replace($needle, $replacement, $s)`: every non-overlapping occurrence of
   * the needle, scanning left to right, is replaced; replaced text is not rescanned.
   */
  function StrReplace(needle: string, replacement: string, s: string): string
    requires needle != ""
    decreases |s|
  {
    if s == [] then []
    else if StartsWith(s, needle) then replacement + StrReplace(needle, replacement, s[|needle|..])
    else [s[0]] + StrReplace(needle, replacement, s[1..])
  }

  /** A string that starts with the needle starts with the replacement afterwards. */
  lemma StrReplaceAtStart(needle: string, replacement: string, s: string)
    requires needle != "" && StartsWith(s, needle)
    ensures StartsWith(StrReplace(needle, replacement, s), replacement)
  {
    var r := StrReplace(needle, replacement, s[|needle|..]);
    assert StrReplace(needle, replacement, s) == replacement + r;
    assert (replacement + r)[..|replacement|] == replacement;
  }

  /** Where the needle does not occur, `str_replace` changes nothing. */
  lemma {:induction false} StrReplaceAbsent(needle: string, replacement: string, s: string)
    requires needle != "" && !Contains(s, needle)
    ensures StrReplace(needle, replacement, s) == s
    decreases |s|
  {
    if s != [] {
      assert !StartsWith(s, needle) by {
        if StartsWith(s, needle) {
          assert OccursAt(s, needle, 0);
        }
      }
      assert !Contains(s[1..], needle) by {
        if Contains(s[1..], needle) {
          var t := s[1..];
          var i :| 0 <= i <= |t| && OccursAt(t, needle, i);
          assert t[i..i + |needle|] == s[i + 1..i + 1 + |needle|];
          assert OccursAt(s, needle, i + 1);
        }
      }
      StrReplaceAbsent(needle, replacement, s[1..]);
    }
  }

  // ---------------------------------------------------------------------
  // dirname, as PHP computes it for '/'-separated paths

  /** `s` with its trailing run of `c` removed. */
  function TrimEnd(s: string, c: char): (r: string)
    ensures StartsWith(s, r)
    ensures r == [] || r[|r| - 1] != c
    ensures forall i :: |r| <= i < |s| ==> s[i] == c
  {
    if s != [] && s[|s| - 1] == c then TrimEnd(s[..|s| - 1], c) else s
  }

  /** `s` with its trailing run of characters other than `c` removed. */
  function TrimEndNot(s: string, c: char): (r: string)
    ensures StartsWith(s, r)
    ensures r == [] || r[|r| - 1] == c
    ensures forall i :: |r| <= i < |s| ==> s[i] != c
  {
    if s != [] && s[|s| - 1] != c then TrimEndNot(s[..|s| - 1], c) else s
  }

  /**
   * `dirname($path)`: drop trailing slashes, then the last component, then the
   * slashes before it. An empty path gives "", a path of slashes only gives "/",
   * a path without a slash gives ".", and a component directly under the root
   * gives "/".
   */
  function DirName(path: string): string {
    if path == [] then ""
    else
      var noTrailing := TrimEnd(path, '/');
      if noTrailing == [] then "/"
      else
        var withSlash := TrimEndNot(noTrailing, '/');
        if withSlash == [] then "."
        else
          var dir := TrimEnd(withSlash, '/');
          if dir == [] then "/" else dir
  }

  /**
   * A directory other than "", "." and "/" is followed by a slash in the path:
   * the path starts with `dirname(path) + "/"`.
   */
  lemma DirNamePrefix(path: string)
    requires DirName(path) !in {"", ".", "/"}
    ensures StartsWith(path, DirName(path) + "/")
  {
    var noTrailing := TrimEnd(path, '/');
    var withSlash := TrimEndNot(noTrailing, '/');
    var dir := TrimEnd(withSlash, '/');
    assert dir == DirName(path);
    assert path[|dir|] == withSlash[|dir|] == '/';
    assert path[..|dir| + 1] == path[..|dir|] + [path[|dir|]];
  }

  /** `dirname("d/f")` is "d" when `d` is non-empty, does not end in a slash and `f` holds no slash. */
  lemma {:induction false} DirNameOfChild(dir: string, file: string)
    requires dir != [] && dir[|dir| - 1] != '/'
    requires file != [] && '/' !in file && file[|file| - 1] != '/'
    ensures DirName(dir + "/" + file) == dir
  {
    var path := dir + "/" + file;
    assert TrimEnd(path, '/') == path;
    TrimEndNotChild(dir + "/", file);
    assert TrimEndNot(path, '/') == dir + "/";
    assert (dir + "/")[..|dir + "/"| - 1] == dir;
    assert TrimEnd(dir + "/", '/') == TrimEnd(dir, '/') == dir;
  }

  /** A path without a slash lies in the current directory: `dirname` gives ".". */
  lemma DirNameNoSlash(path: string)
    requires path != [] && '/' !in path
    ensures DirName(path) == "."
  {
    assert TrimEnd(path, '/') == path;
  }

  lemma {:induction false} TrimEndNotChild(prefix: string, tail: string)
    requires prefix != [] && prefix[|prefix| - 1] == '/'
    requires '/' !in tail
    ensures TrimEndNot(prefix + tail, '/') == prefix
    decreases |tail|
  {
    if tail == [] {
      assert prefix + tail == prefix;
    } else {
      var shorter := tail[..|tail| - 1];
      assert (prefix + tail)[..|prefix + tail| - 1] == prefix + shorter;
      assert (prefix + tail)[|prefix + tail| - 1] == tail[|tail| - 1];
      TrimEndNotChild(prefix, shorter);
    }
  }
}
