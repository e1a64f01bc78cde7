/**
 * The string and path helpers the pipeline leans on: strings.Split,
 * strings.Join, strings.ReplaceAll on one character, and the lexical
 * path/filepath.Clean and Join with '/' as separator.
 */
module Paths {

  /** strings.Split(s, sep) for a one-character separator: one more part than separators. */
  function SplitOn(s: string, sep: char): (r: seq<string>)
    ensures |r| >= 1
  {
    if s == [] then [[]]
    else
      var init := SplitOn(s[..|s| - 1], sep);
      var c := s[|s| - 1];
      if c == sep then init + [[]]
      else init[..|init| - 1] + [init[|init| - 1] + [c]]
  }

  /** No part of a split holds the separator. */
  lemma {:induction false} SplitPartsLackSeparator(s: string, sep: char)
    ensures forall i | 0 <= i < |SplitOn(s, sep)| :: sep !in SplitOn(s, sep)[i]
  {
    if s != [] {
      SplitPartsLackSeparator(s[..|s| - 1], sep);
    }
  }

  /** strings.Join(parts, sep). */
  function JoinWith(parts: seq<string>, sep: char): string
  {
    if parts == [] then []
    else if |parts| == 1 then parts[0]
    else JoinWith(parts[..|parts| - 1], sep) + [sep] + parts[|parts| - 1]
  }

  /** Joining the parts of a split gives the string back. */
  lemma {:induction false} JoinSplit(s: string, sep: char)
    ensures JoinWith(SplitOn(s, sep), sep) == s
  {
    if s != [] {
      JoinSplit(s[..|s| - 1], sep);
      JoinSplitStep(s, sep);
    }
  }

  lemma JoinSplitStep(s: string, sep: char)
    requires s != []
    requires JoinWith(SplitOn(s[..|s| - 1], sep), sep) == s[..|s| - 1]
    ensures JoinWith(SplitOn(s, sep), sep) == s
  {
    var init := SplitOn(s[..|s| - 1], sep);
    var c := s[|s| - 1];
    if c == sep {
      JoinAppend(init, sep, []);
    } else {
      JoinLast(init, sep, [c]);
    }
    InitLast(s);
  }

  /** A non-empty sequence is its front followed by its last element. */
  lemma InitLast<T>(s: seq<T>)
    requires s != []
    ensures s[..|s| - 1] + [s[|s| - 1]] == s
  {
  }

  /** Joining one more part adds a separator and the part. */
  lemma JoinAppend(parts: seq<string>, sep: char, last: string)
    requires |parts| >= 1
    ensures JoinWith(parts + [last], sep) == JoinWith(parts, sep) + [sep] + last
  {
    assert (parts + [last])[..|parts|] == parts;
  }

  lemma JoinLast(parts: seq<string>, sep: char, tail: string)
    requires |parts| >= 1
    ensures JoinWith(parts[..|parts| - 1] + [parts[|parts| - 1] + tail], sep) == JoinWith(parts, sep) + tail
  {
    var init := parts[..|parts| - 1];
    var last := parts[|parts| - 1] + tail;
    var q := init + [last];
    assert q[..|q| - 1] == init;
    if |parts| > 1 {
      assert parts[..|parts| - 1] == init;
    }
  }

  /** With no separator in s, the split is s alone. */
  lemma {:induction false} SplitWithoutSeparator(s: string, sep: char)
    requires sep !in s
    ensures SplitOn(s, sep) == [s]
  {
    if s != [] {
      SplitWithoutSeparator(s[..|s| - 1], sep);
      assert s[..|s| - 1] + [s[|s| - 1]] == s;
    }
  }

  /** Every character of a part comes from s. */
  lemma {:induction false} SplitChars(s: string, sep: char)
    ensures forall i, j | 0 <= i < |SplitOn(s, sep)| && 0 <= j < |SplitOn(s, sep)[i]| :: SplitOn(s, sep)[i][j] in s
  {
    if s != [] {
      SplitChars(s[..|s| - 1], sep);
    }
  }

  /** Every character of a join comes from a part or is the separator. */
  lemma {:induction false} JoinChars(parts: seq<string>, sep: char, c: char)
    requires c in JoinWith(parts, sep)
    ensures c == sep || exists i | 0 <= i < |parts| :: c in parts[i]
  {
    if |parts| > 1 {
      var init := parts[..|parts| - 1];
      var j := JoinWith(init, sep);
      if c in j {
        JoinChars(init, sep, c);
        if c != sep {
          var i :| 0 <= i < |init| && c in init[i];
          assert c in parts[i];
        }
      } else if c != sep {
        assert c in parts[|parts| - 1];
      }
    }
  }

  /** strings.ReplaceAll(s, from, to) for one character by another: a 1-for-1 substitution. */
  function ReplaceChar(s: string, from: char, to: char): (r: string)
    ensures |r| == |s|
    ensures forall i | 0 <= i < |s| :: r[i] == if s[i] == from then to else s[i]
  {
    if s == [] then []
    else ReplaceChar(s[..|s| - 1], from, to) + [if s[|s| - 1] == from then to else s[|s| - 1]]
  }

  /** strings.ReplaceAll(s, c, ""): every occurrence of c dropped, the other characters kept in order. */
  function RemoveChar(s: string, c: char): (r: string)
    ensures |r| <= |s|
    ensures forall i | 0 <= i < |r| :: r[i] != c
  {
    if s == [] then []
    else RemoveChar(s[..|s| - 1], c) + (if s[|s| - 1] == c then [] else [s[|s| - 1]])
  }

  /** Removing c keeps every other character of s, and only those. */
  lemma {:induction false} RemoveCharKeeps(s: string, c: char)
    ensures forall x :: x in RemoveChar(s, c) <==> x in s && x != c
  {
    if s != [] {
      var init := s[..|s| - 1];
      RemoveCharKeeps(init, c);
      assert forall x :: x in s <==> x in init || x == s[|s| - 1] by {
        assert s == init + [s[|s| - 1]];
      }
    }
  }

  /** s ends with t. */
  predicate EndsWith(s: string, t: string) {
    |t| <= |s| && s[|s| - |t|..] == t
  }

  lemma EndsWithTrans(s: string, t: string, u: string)
    requires EndsWith(s, t) && EndsWith(t, u)
    ensures EndsWith(s, u)
  {
    assert s[|s| - |u|..] == s[|s| - |t|..][|t| - |u|..];
  }

  lemma EndsWithConcat(s: string, t: string)
    ensures EndsWith(s + t, t)
  {
    assert (s + t)[|s|..] == t;
  }

  /** Splitting after a separator adds the text behind it as one more part. */
  lemma {:induction false} SplitAfterSeparator(s: string, sep: char, t: string)
    requires sep !in t
    ensures SplitOn(s + [sep] + t, sep) == SplitOn(s, sep) + [t]
  {
    if t == [] {
      assert (s + [sep] + t)[..|s|] == s;
    } else {
      var t' := t[..|t| - 1];
      SplitAfterSeparator(s, sep, t');
      var u := s + [sep] + t;
      assert u[..|u| - 1] == s + [sep] + t';
      assert t' + [t[|t| - 1]] == t;
    }
  }

  // ---------------------------------------------------------------------------
  // path/filepath (separator '/')

  /** One segment of Clean's scan: "" and "." vanish, ".." climbs when it can. */
  function CleanStep(stack: seq<string>, part: string, rooted: bool): seq<string>
  {
    if part == [] || part == "." then stack
    else if part == ".." then
      if |stack| > 0 && stack[|stack| - 1] != ".." then stack[..|stack| - 1]
      else if rooted then stack
      else stack + [".."]
    else stack + [part]
  }

  /** The segments Clean keeps, scanning the parts left to right. */
  function CleanSegments(parts: seq<string>, rooted: bool): seq<string>
  {
    if parts == [] then []
    else CleanStep(CleanSegments(parts[..|parts| - 1], rooted), parts[|parts| - 1], rooted)
  }

  /**
   * filepath.Clean: the shortest lexically equivalent path. "" becomes ".",
   * a rooted path stays rooted and ".." cannot climb above the root.
   */
  function Clean(p: string): (r: string)
    ensures r != []
  {
    if p == [] then "."
    else
      var rooted := p[0] == '/';
      var body := JoinWith(CleanSegments(SplitOn(p, '/'), rooted), '/');
      if rooted then "/" + body
      else if body == [] then "."
      else body
  }

  /** The index of the first non-empty element, or |elems| if there is none. */
  function FirstNonEmpty(elems: seq<string>): (i: nat)
    ensures i <= |elems|
    ensures forall j | 0 <= j < i :: elems[j] == []
    ensures i < |elems| ==> elems[i] != []
  {
    if elems == [] then 0
    else if elems[0] != [] then 0
    else 1 + FirstNonEmpty(elems[1..])
  }

  /** filepath.Join: empty elements before the first non-empty one are ignored, the rest joined and cleaned. */
  function Join(elems: seq<string>): (r: string)
    ensures r == [] <==> forall j | 0 <= j < |elems| :: elems[j] == []
  {
    var i := FirstNonEmpty(elems);
    if i == |elems| then [] else Clean(JoinWith(elems[i..], '/'))
  }

  // ---------------------------------------------------------------------------
  // What Clean keeps

  /** Every segment Clean keeps is a non-empty part other than ".", or "..". */
  lemma {:induction false} CleanSegmentsFromParts(parts: seq<string>, rooted: bool)
    ensures forall i | 0 <= i < |CleanSegments(parts, rooted)| ::
      var seg := CleanSegments(parts, rooted)[i];
      seg != [] && seg != "." && (seg == ".." || seg in parts)
  {
    if parts != [] {
      CleanSegmentsFromParts(parts[..|parts| - 1], rooted);
    }
  }

  /**
   * The segments Clean keeps are in normal form: none is empty or ".", and ".."
   * appears only in a leading run, and never in a rooted path.
   */
  predicate NormalSegments(segs: seq<string>, rooted: bool) {
    forall i | 0 <= i < |segs| ::
      && segs[i] != [] && segs[i] != "."
      && (segs[i] == ".." ==> !rooted && forall j | 0 <= j < i :: segs[j] == "..")
  }

  lemma {:induction false} CleanSegmentsNormal(parts: seq<string>, rooted: bool)
    ensures NormalSegments(CleanSegments(parts, rooted), rooted)
  {
    if parts != [] {
      CleanSegmentsNormal(parts[..|parts| - 1], rooted);
    }
  }

  /** Clean only ever adds '/' and '.' to the characters of its input. */
  lemma CleanChars(p: string, c: char)
    requires c in Clean(p)
    ensures c in p || c == '/' || c == '.'
  {
    if p != [] {
      var parts := SplitOn(p, '/');
      var rooted := p[0] == '/';
      var segs := CleanSegments(parts, rooted);
      var body := JoinWith(segs, '/');
      if c in body && c != '/' {
        JoinChars(segs, '/', c);
        var i :| 0 <= i < |segs| && c in segs[i];
        CleanSegmentsFromParts(parts, rooted);
        if segs[i] != ".." {
          var j :| 0 <= j < |parts| && parts[j] == segs[i];
          var m :| 0 <= m < |segs[i]| && segs[i][m] == c;
          SplitChars(p, '/');
          assert parts[j][m] == c;
        }
      }
    }
  }

  /** Join only ever adds '/' and '.' to the characters of its elements. */
  lemma JoinPathChars(elems: seq<string>, c: char)
    requires c in Join(elems)
    ensures c == '/' || c == '.' || exists i | 0 <= i < |elems| :: c in elems[i]
  {
    var i := FirstNonEmpty(elems);
    CleanChars(JoinWith(elems[i..], '/'), c);
    if c != '/' && c != '.' {
      JoinChars(elems[i..], '/', c);
      var j :| 0 <= j < |elems[i..]| && c in elems[i..][j];
      assert c in elems[i + j];
    }
  }

  // ---------------------------------------------------------------------------
  // A plain file name survives Join

  /** A single path element that Clean leaves alone: not empty, no '/', not "." or "..". */
  predicate PlainName(name: string) {
    name != [] && name != "." && name != ".." && '/' !in name
  }

  /** Clean keeps a trailing plain name as its last segment. */
  lemma CleanKeepsLastName(p: string, name: string)
    requires PlainName(name)
    requires p == name || exists d :: p == d + "/" + name
    ensures EndsWith(Clean(p), name)
  {
    var rooted := p[0] == '/';
    var parts := SplitOn(p, '/');
    if p == name {
      SplitWithoutSeparator(name, '/');
      assert parts == [] + [name];
    } else {
      var d :| p == d + "/" + name;
      SplitAfterSeparator(d, '/', name);
      assert p == d + ['/'] + name;
    }
    assert parts == parts[..|parts| - 1] + [name];
    var segs := CleanSegments(parts[..|parts| - 1], rooted);
    assert parts[..|parts| - 1] + [name] == parts;
    assert CleanSegments(parts, rooted) == segs + [name];
    var body := JoinWith(segs + [name], '/');
    assert (segs + [name])[..|segs|] == segs;
    if segs == [] {
      assert body == name;
    } else {
      assert body == JoinWith(segs, '/') + ['/'] + name;
    }
    EndsWithConcat(JoinWith(segs, '/') + ['/'], name);
    assert EndsWith(body, name);
    if rooted {
      EndsWithConcat("/", body);
      EndsWithTrans("/" + body, body, name);
    }
  }

  /** filepath.Join(dir, name) ends with name when name is a plain file name. */
  lemma JoinEndsWithName(dir: string, name: string)
    requires PlainName(name)
    ensures EndsWith(Join([dir, name]), name)
  {
    var elems := [dir, name];
    if dir == [] {
      assert FirstNonEmpty(elems) == 1 + FirstNonEmpty(elems[1..]);
      assert elems[1..] == [name];
      CleanKeepsLastName(name, name);
    } else {
      assert elems[..1] == [dir];
      assert JoinWith(elems, '/') == dir + "/" + name;
      CleanKeepsLastName(dir + "/" + name, name);
    }
  }

  /** filepath.Join("", name) is name itself when name is a plain file name. */
  lemma JoinNoDir(dir: string, name: string)
    requires PlainName(name)
    ensures dir == [] ==> Join([dir, name]) == name
  {
    if dir == [] {
      var elems := [dir, name];
      JoinOfNames(elems, 1);
      assert elems[1..] == [name];
    }
  }

  /** Splitting a join of separator-free parts gives the parts back. */
  lemma {:induction false} SplitJoin(parts: seq<string>, sep: char)
    requires |parts| >= 1 && forall i | 0 <= i < |parts| :: sep !in parts[i]
    ensures SplitOn(JoinWith(parts, sep), sep) == parts
  {
    if |parts| == 1 {
      SplitWithoutSeparator(parts[0], sep);
    } else {
      var init := parts[..|parts| - 1];
      SplitJoin(init, sep);
      SplitAfterSeparator(JoinWith(init, sep), sep, parts[|parts| - 1]);
      assert init + [parts[|parts| - 1]] == parts;
    }
  }

  /** A join starts with its first part. */
  lemma {:induction false} JoinStartsWithFirst(parts: seq<string>, sep: char)
    requires |parts| >= 1
    ensures |parts[0]| <= |JoinWith(parts, sep)| && JoinWith(parts, sep)[..|parts[0]|] == parts[0]
  {
    if |parts| > 1 {
      var init := parts[..|parts| - 1];
      JoinStartsWithFirst(init, sep);
      var j := JoinWith(init, sep);
      assert (j + [sep] + parts[|parts| - 1])[..|parts[0]|] == j[..|parts[0]|];
    }
  }

  /** Clean keeps plain names as they are. */
  lemma {:induction false} CleanSegmentsOfNames(parts: seq<string>, rooted: bool)
    requires forall i | 0 <= i < |parts| :: PlainName(parts[i])
    ensures CleanSegments(parts, rooted) == parts
  {
    if parts != [] {
      CleanSegmentsOfNames(parts[..|parts| - 1], rooted);
      assert parts[..|parts| - 1] + [parts[|parts| - 1]] == parts;
    }
  }

  /** Plain names joined with '/' are already clean. */
  lemma CleanJoinedNames(parts: seq<string>)
    requires |parts| >= 1 && forall i | 0 <= i < |parts| :: PlainName(parts[i])
    ensures Clean(JoinWith(parts, '/')) == JoinWith(parts, '/')
  {
    var p := JoinWith(parts, '/');
    JoinStartsWithFirst(parts, '/');
    assert p[0] == parts[0][0];
    assert p[0] != '/';
    SplitJoin(parts, '/');
    CleanSegmentsOfNames(parts, false);
  }

  /** Joining two non-empty runs of parts puts one separator between their joins. */
  lemma {:induction false} JoinConcat(a: seq<string>, b: seq<string>, sep: char)
    requires |a| >= 1 && |b| >= 1
    ensures JoinWith(a + b, sep) == JoinWith(a, sep) + [sep] + JoinWith(b, sep)
  {
    var last := b[|b| - 1];
    if |b| == 1 {
      assert a + b == a + [last];
    } else {
      var init := b[..|b| - 1];
      JoinConcat(a, init, sep);
      assert (a + init) + [last] == a + b;
    }
    JoinAppend(a + b[..|b| - 1], sep, last);
  }

  /** One more part: Clean's scan takes one more step. */
  lemma CleanSegmentsSnoc(parts: seq<string>, part: string, rooted: bool)
    ensures CleanSegments(parts + [part], rooted) == CleanStep(CleanSegments(parts, rooted), part, rooted)
  {
    assert (parts + [part])[..|parts|] == parts;
  }

  /** Plain names after any parts are kept by Clean's scan as they are. */
  lemma {:induction false} CleanSegmentsAfter(pre: seq<string>, names: seq<string>, rooted: bool)
    requires forall i | 0 <= i < |names| :: PlainName(names[i])
    ensures CleanSegments(pre + names, rooted) == CleanSegments(pre, rooted) + names
  {
    if names == [] {
      assert pre + names == pre;
    } else {
      var init := names[..|names| - 1];
      CleanSegmentsAfter(pre, init, rooted);
      CleanSegmentsSnoc(pre + init, names[|names| - 1], rooted);
      assert (pre + init) + [names[|names| - 1]] == pre + names;
      assert CleanSegments(pre, rooted) + init + [names[|names| - 1]] == CleanSegments(pre, rooted) + names;
    }
  }

  /** A rooted path of plain names is already clean. */
  lemma CleanRootedNames(parts: seq<string>)
    requires |parts| >= 1 && forall i | 0 <= i < |parts| :: PlainName(parts[i])
    ensures Clean("/" + JoinWith(parts, '/')) == "/" + JoinWith(parts, '/')
  {
    var root: seq<string> := [[]];
    var p := "/" + JoinWith(parts, '/');
    SplitRooted(parts);
    CleanRoot();
    CleanSegmentsAfter(root, parts, true);
    assert CleanSegments(SplitOn(p, '/'), true) == parts;
    assert p[0] == '/';
  }

  /** The empty part before a leading '/' leaves Clean's scan empty. */
  lemma CleanRoot()
    ensures CleanSegments([[]], true) == []
  {
    var none: seq<string> := [];
    CleanSegmentsSnoc(none, [], true);
    assert none + [[]] == [[]];
  }

  /** The split of a rooted path of plain names: an empty part, then the names. */
  lemma SplitRooted(parts: seq<string>)
    requires |parts| >= 1 && forall i | 0 <= i < |parts| :: PlainName(parts[i])
    ensures SplitOn("/" + JoinWith(parts, '/'), '/') == [[]] + parts
  {
    var root: seq<string> := [[]];
    JoinConcat(root, parts, '/');
    assert JoinWith(root + parts, '/') == "/" + JoinWith(parts, '/');
    assert forall i | 0 <= i < |root + parts| :: '/' !in (root + parts)[i] by {
      forall i | 0 <= i < |root + parts| ensures '/' !in (root + parts)[i] {
        if i > 0 {
          assert (root + parts)[i] == parts[i - 1];
        }
      }
    }
    SplitJoin(root + parts, '/');
  }

  /**
   * filepath.Join(dir, rel) for a directory of plain names, rooted or not,
   * and a relative path of plain names: the two with one '/' between them.
   */
  lemma JoinUnderDir(dir: string, dirs: seq<string>, rooted: bool, names: seq<string>)
    requires |dirs| >= 1 && forall i | 0 <= i < |dirs| :: PlainName(dirs[i])
    requires dir == (if rooted then "/" else "") + JoinWith(dirs, '/')
    requires |names| >= 1 && forall i | 0 <= i < |names| :: PlainName(names[i])
    ensures Join([dir, JoinWith(names, '/')]) == dir + "/" + JoinWith(names, '/')
  {
    var rel := JoinWith(names, '/');
    var p := dir + "/" + rel;
    JoinStartsWithFirst(dirs, '/');
    CleanUnderDir(p, dir, dirs, rooted, names);
    JoinPair(dir, rel, p);
  }

  /** A directory of plain names, a '/' and a relative path of plain names: already clean. */
  lemma CleanUnderDir(p: string, dir: string, dirs: seq<string>, rooted: bool, names: seq<string>)
    requires |dirs| >= 1 && forall i | 0 <= i < |dirs| :: PlainName(dirs[i])
    requires dir == (if rooted then "/" else "") + JoinWith(dirs, '/')
    requires |names| >= 1 && forall i | 0 <= i < |names| :: PlainName(names[i])
    requires p == dir + "/" + JoinWith(names, '/')
    ensures Clean(p) == p
  {
    PlainConcat(dirs, names);
    var root := if rooted then "/" else "";
    DirJoin(p, dir, dirs, root, names);
    CleanNames(p, root, dirs + names);
  }

  /** A directory's parts and a relative path's parts, joined in one go. */
  lemma DirJoin(p: string, dir: string, dirs: seq<string>, root: string, names: seq<string>)
    requires |dirs| >= 1 && |names| >= 1
    requires dir == root + JoinWith(dirs, '/') && p == dir + "/" + JoinWith(names, '/')
    ensures p == root + JoinWith(dirs + names, '/')
  {
    JoinConcat(dirs, names, '/');
  }

  /** A rooted or relative path of plain names is already clean. */
  lemma CleanNames(p: string, root: string, all: seq<string>)
    requires root == "/" || root == ""
    requires |all| >= 1 && forall i | 0 <= i < |all| :: PlainName(all[i])
    requires p == root + JoinWith(all, '/')
    ensures Clean(p) == p
  {
    if root == "/" {
      CleanRootedNames(all);
    } else {
      assert p == JoinWith(all, '/');
      CleanJoinedNames(all);
    }
  }

  lemma PlainConcat(a: seq<string>, b: seq<string>)
    requires forall i | 0 <= i < |a| :: PlainName(a[i])
    requires forall i | 0 <= i < |b| :: PlainName(b[i])
    ensures forall i | 0 <= i < |a + b| :: PlainName((a + b)[i])
  {
    forall i | 0 <= i < |a + b| ensures PlainName((a + b)[i]) {
      if i >= |a| {
        assert (a + b)[i] == b[i - |a|];
      }
    }
  }

  /** filepath.Join of a non-empty directory and another element: their '/'-join, cleaned. */
  lemma JoinPair(dir: string, rel: string, p: string)
    requires dir != [] && p == dir + "/" + rel
    ensures Join([dir, rel]) == Clean(p)
  {
    var elems := [dir, rel];
    assert FirstNonEmpty(elems) == 0;
    assert elems[0..] == elems;
    assert elems[..1] == [dir];
    assert JoinWith(elems, '/') == p;
  }

  /** filepath.Join of elements whose first is non-empty: their '/'-join, cleaned. */
  lemma JoinFromFirst(elems: seq<string>)
    requires |elems| >= 1 && elems[0] != []
    ensures Join(elems) == Clean(JoinWith(elems, '/'))
  {
    assert elems[0..] == elems;
  }

  /** Clean of a path whose split Clean's scan reduces to `segs`. */
  lemma CleanBySegments(p: string, parts: seq<string>, rooted: bool, segs: seq<string>)
    requires p != [] && rooted == (p[0] == '/')
    requires SplitOn(p, '/') == parts && CleanSegments(parts, rooted) == segs
    ensures rooted ==> Clean(p) == "/" + JoinWith(segs, '/')
    ensures !rooted && segs != [] ==> Clean(p) == JoinWith(segs, '/')
  {
    if !rooted && segs != [] {
      JoinStartsWithFirst(segs, '/');
      CleanSegmentsFromParts(parts, rooted);
      assert segs[0] != [];
    }
  }

  /** A join holds a character only if the separator is it or some part holds it. */
  lemma JoinLacks(parts: seq<string>, sep: char, c: char)
    requires c != sep && forall i | 0 <= i < |parts| :: c !in parts[i]
    ensures c !in JoinWith(parts, sep)
  {
    if c in JoinWith(parts, sep) {
      JoinChars(parts, sep, c);
    }
  }

  /** filepath.Join of leading empty elements and then plain names: the names joined with '/'. */
  lemma JoinOfNames(elems: seq<string>, skip: nat)
    requires skip < |elems|
    requires forall i | 0 <= i < skip :: elems[i] == []
    requires forall i | skip <= i < |elems| :: PlainName(elems[i])
    ensures Join(elems) == JoinWith(elems[skip..], '/')
  {
    var f := FirstNonEmpty(elems);
    assert PlainName(elems[skip]);
    CleanJoinedNames(elems[skip..]);
  }
}
