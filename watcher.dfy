/** The `ignored` option of the shared-folder watcher: the regular expression
    /(^|[\/\\])\../ tested against the full path of a changed entry. A path is ignored when
    some component of it is a dotfile or dot-directory. The watcher library's own default
    filters (its `atomic` mode also drops editor temporaries such as names ending in `~`)
    are not part of this model. */
module Watcher {

  predicate IsSeparator(c: char)
  {
    c == '/' || c == '\\'
  }

  /** The characters that a regular-expression `.` does not match. */
  predicate IsLineTerminator(c: char)
  {
    c == '\n' || c == '\r' || c == '\U{2028}' || c == '\U{2029}'
  }

  /** The pattern tried at position i: either the start of the input followed by `\..`, or
      a separator at i followed by `\..`. */
  predicate MatchAt(s: string, i: nat)
  {
    (i == 0 && 1 < |s| && s[0] == '.' && !IsLineTerminator(s[1])) ||
    (i + 2 < |s| && IsSeparator(s[i]) && s[i + 1] == '.' && !IsLineTerminator(s[i + 2]))
  }

  /** An unanchored search: the pattern is tried at i, i + 1, ... up to the end. */
  predicate SearchFrom(s: string, i: nat)
    decreases |s| - i
  {
    i <= |s| && (MatchAt(s, i) || SearchFrom(s, i + 1))
  }

  /** Whether the watcher ignores a path. */
  predicate Ignored(path: string)
  {
    SearchFrom(path, 0)
  }

  /** A hidden component starts at p: a '.' at the start of the path or right after a
      separator, followed by one more character that is not a line terminator. */
  predicate HiddenAt(s: string, p: int)
  {
    0 <= p && p + 1 < |s| && s[p] == '.' && (p == 0 || IsSeparator(s[p - 1])) &&
    !IsLineTerminator(s[p + 1])
  }

  lemma {:induction false} SearchFromHidden(s: string, i: nat)
    ensures SearchFrom(s, i) <==>
      (i == 0 && HiddenAt(s, 0)) || exists p :: i + 1 <= p && HiddenAt(s, p)
    decreases |s| - i
  {
    if i <= |s| {
      SearchFromHidden(s, i + 1);
      if MatchAt(s, i) && i > 0 {
        assert HiddenAt(s, i + 1);
      }
      if MatchAt(s, i) && i == 0 && !HiddenAt(s, 0) {
        assert HiddenAt(s, 1);
      }
      if p :| i + 1 <= p && HiddenAt(s, p) {
        if p > i + 1 {
          assert SearchFrom(s, i + 1);
        } else {
          assert MatchAt(s, i);
        }
      }
    } else {
      if p :| i + 1 <= p && HiddenAt(s, p) {
        assert false;
      }
    }
  }

  /** The regular expression matches exactly the paths that have a hidden component. */
  lemma IgnoredIffHidden(path: string)
    ensures Ignored(path) <==> exists p :: HiddenAt(path, p)
  {
    SearchFromHidden(path, 0);
    if p :| HiddenAt(path, p) {
      if p > 0 {
        assert 0 + 1 <= p;
      }
    }
  }

  /** The directory ends with a component that is a single '.', as in "/srv/.". The watcher
      reports entries under the watched path in normalised form, so a directory it reports
      never ends this way; the case is kept only to state the regular expression exactly. */
  predicate EndsWithLoneDot(dir: string)
  {
    |dir| >= 1 && dir[|dir| - 1] == '.' && (|dir| == 1 || IsSeparator(dir[|dir| - 2]))
  }

  /** An entry of a watched directory is ignored exactly when the directory path already is,
      when the entry's own name is a dotfile, or in the corner case of a directory path
      ending in a lone '.', which a normalised watched path does not reach. In particular
      every entry is ignored when the shared folder lies inside a hidden directory. */
  lemma IgnoredEntry(dir: string, name: string)
    ensures Ignored(dir + "/" + name) <==>
      Ignored(dir) || Ignored(name) || EndsWithLoneDot(dir)
  {
    var t := dir + "/" + name;
    var n := |dir|;
    IgnoredIffHidden(t);
    IgnoredIffHidden(dir);
    IgnoredIffHidden(name);
    if p :| HiddenAt(dir, p) {
      assert HiddenAt(t, p);
    }
    if q :| HiddenAt(name, q) {
      assert t[n + 1 + q] == name[q] && t[n + 2 + q] == name[q + 1];
      assert q > 0 ==> t[n + q] == name[q - 1];
      assert HiddenAt(t, n + 1 + q);
    }
    if EndsWithLoneDot(dir) {
      assert HiddenAt(t, n - 1);
    }
    if p :| HiddenAt(t, p) {
      if p + 1 < n {
        assert HiddenAt(dir, p);
      } else if p + 1 == n {
        assert EndsWithLoneDot(dir);
      } else {
        assert p != n;
        var q := p - n - 1;
        assert name[q] == t[p] && name[q + 1] == t[p + 1];
        assert q > 0 ==> name[q - 1] == t[p - 1];
        assert HiddenAt(name, q);
      }
    }
  }
}
