/**
 * The Python string operations the analyzers rely on: `str.lower()` (on the
 * ASCII letters), substring containment `k in s`, `str.replace(ch, "")`, and
 * the extension half of `os.path.splitext` on POSIX paths.
 */
module Text {

  function LowerChar(ch: char): char
  {
    if 'A' <= ch <= 'Z' then (ch as int - 'A' as int + 'a' as int) as char else ch
  }

  /** `s.lower()`, restricted to the ASCII letters. */
  function ToLower(s: string): (r: string)
    ensures |r| == |s|
    ensures forall i :: 0 <= i < |s| ==> r[i] == LowerChar(s[i])
    ensures forall i :: 0 <= i < |r| ==> !('A' <= r[i] <= 'Z')
  {
    seq(|s|, i requires 0 <= i < |s| => LowerChar(s[i]))
  }

  /** Lower-casing twice is lower-casing once. */
  lemma LowerIdempotent(s: string)
    ensures ToLower(ToLower(s)) == ToLower(s)
  {
    var once := ToLower(s);
    forall i | 0 <= i < |once|
      ensures ToLower(once)[i] == once[i]
    {
      assert !('A' <= once[i] <= 'Z');
    }
  }

  /** Lower-casing commutes with taking a slice. */
  lemma LowerSlice(s: string, i: int, j: int)
    requires 0 <= i <= j <= |s|
    ensures ToLower(s)[i..j] == ToLower(s[i..j])
  {
  }

  /** Python's `k in s` for strings, scanning the start positions left to right. */
  function Occurs(k: string, s: string): (found: bool)
    ensures found ==> |k| <= |s|
    ensures |k| == 0 ==> found
    decreases |s|
  {
    if |k| > |s| then false
    else s[..|k|] == k || (|s| > 0 && Occurs(k, s[1..]))
  }

  /** `k` is found in `s` starting at index `i`. */
  ghost predicate OccursAt(k: string, s: string, i: int)
  {
    0 <= i && i + |k| <= |s| && s[i..i + |k|] == k
  }

  /** The scan finds `k` exactly when it occurs at some index. */
  lemma {:induction false} OccursIff(k: string, s: string)
    ensures Occurs(k, s) <==> exists i :: OccursAt(k, s, i)
    decreases |s|
  {
    if |k| > |s| {
      assert !Occurs(k, s);
    } else if s[..|k|] == k {
      assert OccursAt(k, s, 0);
    } else {
      OccursIff(k, s[1..]);
      if Occurs(k, s[1..]) {
        var j :| OccursAt(k, s[1..], j);
        OccursAtTail(k, s, j + 1);
      } else {
        forall i | OccursAt(k, s, i)
          ensures false
        {
          assert i != 0;
          OccursAtTail(k, s, i);
        }
      }
    }
  }

  /** An occurrence at a positive index is an occurrence in the tail. */
  lemma OccursAtTail(k: string, s: string, i: int)
    requires |s| > 0 && i >= 1
    ensures OccursAt(k, s, i) <==> OccursAt(k, s[1..], i - 1)
  {
    if i + |k| <= |s| {
      assert s[1..][i - 1..i - 1 + |k|] == s[i..i + |k|];
    }
  }

  /** Some slice of `s` starting at `i` lower-cases to `k`. */
  ghost predicate OccursFoldedAt(k: string, s: string, i: int)
  {
    0 <= i && i + |k| <= |s| && ToLower(s[i..i + |k|]) == k
  }

  /** Substring search on lower-cased text is case-insensitive search: `k`
      occurs in `s.lower()` exactly when some slice of `s` lower-cases to `k`. */
  lemma OccursInLowerIff(k: string, s: string)
    ensures Occurs(k, ToLower(s)) <==> exists i :: OccursFoldedAt(k, s, i)
  {
    OccursIff(k, ToLower(s));
    if Occurs(k, ToLower(s)) {
      var i :| OccursAt(k, ToLower(s), i);
      LowerSlice(s, i, i + |k|);
      assert OccursFoldedAt(k, s, i);
    }
    if exists i :: OccursFoldedAt(k, s, i) {
      var i :| OccursFoldedAt(k, s, i);
      LowerSlice(s, i, i + |k|);
      assert OccursAt(k, ToLower(s), i);
    }
  }

  /** Index of the last `ch` in `s`, or -1 (`str.rfind`). */
  function LastIndexOf(s: string, ch: char): (r: int)
    ensures -1 <= r < |s|
    ensures r >= 0 ==> s[r] == ch
    ensures forall i :: r < i < |s| ==> s[i] != ch
  {
    if |s| == 0 then -1
    else if s[|s| - 1] == ch then |s| - 1
    else LastIndexOf(s[..|s| - 1], ch)
  }

  predicate HasNonDot(s: string)
  {
    exists i :: 0 <= i < |s| && s[i] != '.'
  }

  /** The extension `os.path.splitext(p)[1]` gives on POSIX: from the last dot
      of the final path component, provided that component has a non-dot
      character before it (so ".bashrc" has no extension); otherwise "". */
  function SplitExt(p: string): (ext: string)
    ensures ext == [] || (|ext| <= |p| && ext[0] == '.')
  {
    var sepIndex := LastIndexOf(p, '/');
    var dotIndex := LastIndexOf(p, '.');
    if dotIndex > sepIndex && HasNonDot(p[sepIndex + 1..dotIndex]) then p[dotIndex..] else []
  }

  /** The extension is empty, or a suffix of the path made of one dot followed
      by neither dots nor slashes. */
  lemma SplitExtShape(p: string)
    ensures var ext := SplitExt(p);
      |ext| <= |p| && ext == p[|p| - |ext|..] &&
      (ext == [] || (ext[0] == '.' && '.' !in ext[1..] && '/' !in ext))
  {
    var sepIndex := LastIndexOf(p, '/');
    var dotIndex := LastIndexOf(p, '.');
    if dotIndex > sepIndex && HasNonDot(p[sepIndex + 1..dotIndex]) {
      var ext := p[dotIndex..];
      assert SplitExt(p) == ext;
      ExtensionShape(p, dotIndex, sepIndex);
      assert ext == p[|p| - |ext|..];
    } else {
      assert SplitExt(p) == [];
    }
  }

  /** The suffix from the last dot, when it lies after the last slash, is a
      dot followed by neither dots nor slashes. */
  lemma ExtensionShape(p: string, dotIndex: int, sepIndex: int)
    requires -1 <= sepIndex < dotIndex < |p| && p[dotIndex] == '.'
    requires forall i :: dotIndex < i < |p| ==> p[i] != '.'
    requires forall i :: sepIndex < i < |p| ==> p[i] != '/'
    ensures var ext := p[dotIndex..]; ext[0] == '.' && '.' !in ext[1..] && '/' !in ext
  {
    var ext := p[dotIndex..];
    forall j | 0 <= j < |ext|
      ensures ext[j] == p[dotIndex + j] && ext[j] != '/'
      ensures j > 0 ==> ext[j] != '.'
    {
    }
    assert forall j :: 0 <= j < |ext[1..]| ==> ext[1..][j] == ext[j + 1];
  }

  /** A path made of a directory, a stem with a non-dot character, and a
      dot-free extension splits back into that extension. */
  lemma SplitExtOfJoin(dir: string, stem: string, ext: string)
    requires dir == [] || dir[|dir| - 1] == '/'
    requires '/' !in stem && '/' !in ext && '.' !in ext
    requires HasNonDot(stem)
    ensures SplitExt(dir + stem + "." + ext) == "." + ext
  {
    var p := dir + stem + "." + ext;
    var d := |dir| + |stem|;
    JoinLastDot(dir, stem, ext);
    JoinLastSlash(dir, stem, ext);
    assert p[|dir|..d] == stem;
    assert p[d..] == "." + ext;
  }

  /** In such a path the last dot is the one before the extension. */
  lemma JoinLastDot(dir: string, stem: string, ext: string)
    requires '.' !in ext
    ensures LastIndexOf(dir + stem + "." + ext, '.') == |dir| + |stem|
  {
    var head := dir + stem + ".";
    assert head[|head| - 1] == '.';
    LastIndexOfSkip(head, ext, '.');
  }

  /** In such a path the last slash is the one ending the directory. */
  lemma JoinLastSlash(dir: string, stem: string, ext: string)
    requires dir == [] || dir[|dir| - 1] == '/'
    requires '/' !in stem && '/' !in ext
    ensures LastIndexOf(dir + stem + "." + ext, '/') == |dir| - 1
  {
    var tail := stem + "." + ext;
    assert dir + stem + "." + ext == dir + tail;
    LastIndexOfSkip(dir, tail, '/');
  }

  /** Appending text without `ch` leaves the last `ch` where it was. */
  lemma {:induction false} LastIndexOfSkip(a: string, b: string, ch: char)
    requires ch !in b
    ensures LastIndexOf(a + b, ch) == LastIndexOf(a, ch)
    decreases |b|
  {
    if |b| == 0 {
      assert a + b == a;
    } else {
      var b' := b[..|b| - 1];
      assert b[|b| - 1] in b;
      assert (a + b)[..|a + b| - 1] == a + b';
      LastIndexOfSkip(a, b', ch);
    }
  }

  /** `s.replace(ch, "")`. */
  function RemoveAll(s: string, ch: char): (r: string)
    ensures ch !in r
    ensures ch !in s ==> r == s
    ensures |r| <= |s|
  {
    if |s| == 0 then []
    else (if s[0] == ch then [] else [s[0]]) + RemoveAll(s[1..], ch)
  }

  /** Every occurrence of `ch` goes and every other character stays, as often
      as it occurred. */
  lemma {:induction false} RemoveAllKeeps(s: string, ch: char)
    ensures multiset(RemoveAll(s, ch)) == multiset(s)[ch := 0]
    decreases |s|
  {
    if |s| > 0 {
      assert s == [s[0]] + s[1..];
      RemoveAllKeeps(s[1..], ch);
    }
  }

  /** Removal works piece by piece, so the kept characters stay in order. */
  lemma {:induction false} RemoveAllAppend(a: string, b: string, ch: char)
    ensures RemoveAll(a + b, ch) == RemoveAll(a, ch) + RemoveAll(b, ch)
    decreases |a|
  {
    if |a| == 0 {
      assert a + b == b;
    } else {
      var ab := a + b;
      assert ab[0] == a[0];
      assert ab[1..] == a[1..] + b;
      RemoveAllAppend(a[1..], b, ch);
      var h := if a[0] == ch then [] else [a[0]];
      calc {
        RemoveAll(ab, ch);
        h + RemoveAll(ab[1..], ch);
        h + RemoveAll(a[1..] + b, ch);
        h + (RemoveAll(a[1..], ch) + RemoveAll(b, ch));
        (h + RemoveAll(a[1..], ch)) + RemoveAll(b, ch);
        RemoveAll(a, ch) + RemoveAll(b, ch);
      }
    }
  }
}
