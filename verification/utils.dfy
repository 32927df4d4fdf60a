/**
 * The small pure helpers of src/lib/utils.ts: last path component, file
 * extension, the status-to-icon and status-to-class tables, and the branch
 * colour index with its CSS colour string. Text is a sequence of chars
 * compared only for equality, as JavaScript compares UTF-16 code units.
 */
module Utils {

  // ---------------------------------------------------------------------
  // String.prototype.split with a one-character separator
  // ---------------------------------------------------------------------

  /**
   * The pieces of `s` between occurrences of `sep`, in order: one more piece
   * than there are separators, so never an empty list (JavaScript's
   * `"".split(c)` is `[""]`).
   */
  function Split(s: string, sep: char): (parts: seq<string>)
    ensures |parts| >= 1
    ensures forall i :: 0 <= i < |parts| ==> sep !in parts[i]
    decreases |s|
  {
    if s == [] then [[]]
    else
      var rest := Split(s[1..], sep);
      if s[0] == sep then [[]] + rest
      else [[s[0]] + rest[0]] + rest[1..]
  }

  /** Array.prototype.join with a one-character separator. */
  function Join(parts: seq<string>, sep: char): string
    requires |parts| >= 1
    decreases |parts|
  {
    if |parts| == 1 then parts[0] else parts[0] + [sep] + Join(parts[1..], sep)
  }

  function Last<T>(s: seq<T>): T
    requires |s| >= 1
  {
    s[|s| - 1]
  }

  /** Splitting loses nothing: joining the pieces back with the separator gives the text. */
  lemma {:induction false} SplitJoin(s: string, sep: char)
    ensures Join(Split(s, sep), sep) == s
    decreases |s|
  {
    if s != [] {
      var rest := Split(s[1..], sep);
      SplitJoin(s[1..], sep);
      if s[0] == sep {
        assert Split(s, sep)[1..] == rest;
      } else {
        var parts := Split(s, sep);
        if |rest| == 1 {
          assert parts == [[s[0]] + rest[0]];
        } else {
          assert parts[1..] == rest[1..];
          assert Join(rest, sep) == rest[0] + [sep] + Join(rest[1..], sep);
        }
      }
    }
  }

  /** Joining pieces free of the separator and splitting again gives the same pieces. */
  lemma {:induction false} JoinSplit(parts: seq<string>, sep: char)
    requires |parts| >= 1
    requires forall i :: 0 <= i < |parts| ==> sep !in parts[i]
    ensures Split(Join(parts, sep), sep) == parts
    decreases |parts|, |parts[0]|
  {
    var s := Join(parts, sep);
    if parts[0] == [] {
      if |parts| > 1 {
        assert s == [sep] + Join(parts[1..], sep);
        assert s[1..] == Join(parts[1..], sep);
        JoinSplit(parts[1..], sep);
      }
    } else {
      var head := parts[0];
      var shorter := [head[1..]] + parts[1..];
      assert shorter[1..] == parts[1..];
      assert head[0] != sep by { assert head[0] in head; }
      assert forall i :: 0 <= i < |shorter| ==> sep !in shorter[i] by {
        forall i | 0 <= i < |shorter|
          ensures sep !in shorter[i]
        {
          if i == 0 {
            assert forall c :: c in head[1..] ==> c in head;
          } else {
            assert shorter[i] == parts[i];
          }
        }
      }
      JoinSplit(shorter, sep);
      if |parts| == 1 {
        assert s == head && s[1..] == head[1..];
      } else {
        assert s == [head[0]] + Join(shorter, sep);
        assert s[1..] == Join(shorter, sep);
      }
      assert [head[0]] + head[1..] == head;
      assert [[head[0]] + head[1..]] + parts[1..] == parts;
    }
  }

  /** There is more than one piece exactly when the separator occurs. */
  lemma {:induction false} SplitSingle(s: string, sep: char)
    ensures |Split(s, sep)| == 1 <==> sep !in s
    ensures sep !in s ==> Split(s, sep) == [s]
    decreases |s|
  {
    if s != [] {
      SplitSingle(s[1..], sep);
      assert sep in s <==> s[0] == sep || sep in s[1..] by {
        assert s == [s[0]] + s[1..];
      }
      if s[0] != sep && sep !in s[1..] {
        assert [s[0]] + s[1..] == s;
      }
    }
  }

  /** With more than one piece, the text ends with the separator and the last piece. */
  lemma {:induction false} JoinLast(parts: seq<string>, sep: char)
    requires |parts| >= 2
    ensures |Last(parts)| < |Join(parts, sep)|
    ensures Join(parts, sep)[|Join(parts, sep)| - |Last(parts)| - 1..] == [sep] + Last(parts)
    decreases |parts|
  {
    var s := Join(parts, sep);
    if |parts| == 2 {
      assert Join(parts[1..], sep) == parts[1];
      assert s[|s| - |Last(parts)| - 1..] == [sep] + parts[1];
    } else {
      var t := Join(parts[1..], sep);
      JoinLast(parts[1..], sep);
      assert Last(parts[1..]) == Last(parts);
      assert s == (parts[0] + [sep]) + t;
      assert s[|s| - |Last(parts)| - 1..] == t[|t| - |Last(parts)| - 1..];
    }
  }

  // ---------------------------------------------------------------------
  // Paths
  // ---------------------------------------------------------------------

  /** getFileName: the text after the last '/', or the whole path when there is none. */
  function GetFileName(path: string): (name: string)
    ensures '/' !in name
  {
    Last(Split(path, '/'))
  }

  /** getFileExtension: the text after the last '.', or "" when there is none. */
  function GetFileExtension(path: string): (ext: string)
    ensures '.' !in ext
  {
    var parts := Split(path, '.');
    if |parts| > 1 then Last(parts) else ""
  }

  /**
   * The last path component is the whole path when it has no '/', and
   * otherwise the path ends with '/' followed by it; as it has no '/', it
   * is the longest such ending.
   */
  lemma GetFileNameSpec(path: string)
    ensures '/' !in path ==> GetFileName(path) == path
    ensures '/' in path ==>
              && |GetFileName(path)| < |path|
              && path[|path| - |GetFileName(path)| - 1..] == "/" + GetFileName(path)
  {
    SplitSingle(path, '/');
    if '/' in path {
      JoinLast(Split(path, '/'), '/');
      SplitJoin(path, '/');
    }
  }

  /**
   * The extension is "" when the path has no '.', and otherwise the path
   * ends with '.' followed by it; as it has no '.', it is the longest such
   * ending.
   */
  lemma GetFileExtensionSpec(path: string)
    ensures '.' !in path ==> GetFileExtension(path) == ""
    ensures '.' in path ==>
              && |GetFileExtension(path)| < |path|
              && path[|path| - |GetFileExtension(path)| - 1..] == "." + GetFileExtension(path)
  {
    SplitSingle(path, '.');
    if '.' in path {
      JoinLast(Split(path, '.'), '.');
      SplitJoin(path, '.');
    }
  }

  /** Splitting text that starts with an ordinary character extends the first piece. */
  lemma SplitOrdinary(c: char, s: string, sep: char)
    requires c != sep
    ensures Split([c] + s, sep) == [[c] + Split(s, sep)[0]] + Split(s, sep)[1..]
  {
    assert ([c] + s)[1..] == s;
  }

  /** A dot file's extension is its name after the dot; a name without a dot has none. */
  lemma GetFileExtensionExamples()
    ensures GetFileExtension("a.ts") == "ts"
    ensures GetFileExtension("LICENSE") == ""
    ensures GetFileExtension(".md") == "md"
  {
    assert Split("ts", '.') == ["ts"] by { SplitSingle("ts", '.'); }
    assert Split(".ts", '.') == ["", "ts"];
    SplitOrdinary('a', ".ts", '.');
    assert ['a'] + ".ts" == "a.ts";
    assert Split("md", '.') == ["md"] by { SplitSingle("md", '.'); }
    assert Split(".md", '.') == ["", "md"];
    SplitSingle("LICENSE", '.');
  }

  /** The last component of a path; a path ending in '/' has an empty one. */
  lemma GetFileNameExamples()
    ensures GetFileName("b/a.ts") == "a.ts"
    ensures GetFileName("b/") == ""
  {
    assert Split("a.ts", '/') == ["a.ts"] by { SplitSingle("a.ts", '/'); }
    assert Split("/a.ts", '/') == ["", "a.ts"];
    SplitOrdinary('b', "/a.ts", '/');
    assert ['b'] + "/a.ts" == "b/a.ts";
    assert Split("/", '/') == ["", ""];
    SplitOrdinary('b', "/", '/');
    assert ['b'] + "/" == "b/";
  }

  // ---------------------------------------------------------------------
  // Status tables
  // ---------------------------------------------------------------------

  /** The statuses with an icon of their own. */
  const IconStatuses: set<string> := {"modified", "new", "added", "deleted", "renamed", "conflicted"}

  /** The statuses with a colour class of their own. */
  const ColorStatuses: set<string> := {"modified", "new", "added", "deleted", "renamed"}

  /** getStatusIcon: the one-letter badge of a file status. */
  function GetStatusIcon(status: string): (icon: string)
    ensures icon in {"M", "A", "D", "R", "C", "?"}
    ensures icon == "A" <==> status == "new" || status == "added"
    ensures icon == "C" <==> status == "conflicted"
    ensures icon == "?" <==> status !in IconStatuses
  {
    if status == "modified" then "M"
    else if status == "new" || status == "added" then "A"
    else if status == "deleted" then "D"
    else if status == "renamed" then "R"
    else if status == "conflicted" then "C"
    else "?"
  }

  /** getStatusColor: the text colour class of a file status. */
  function GetStatusColor(status: string): (cls: string)
    ensures cls == "text-git-added" <==> status == "new" || status == "added"
    ensures cls == "text-git-untracked" <==> status !in ColorStatuses
  {
    if status == "modified" then "text-git-modified"
    else if status == "new" || status == "added" then "text-git-added"
    else if status == "deleted" then "text-git-removed"
    else if status == "renamed" then "text-git-renamed"
    else "text-git-untracked"
  }

  /**
   * The colour is a function of the icon: statuses sharing an icon share a
   * colour ("new" and "added" in particular). The converse fails: a
   * conflicted file is coloured like an unknown one.
   */
  lemma ColorFollowsIcon(s: string, t: string)
    ensures GetStatusIcon(s) == GetStatusIcon(t) ==> GetStatusColor(s) == GetStatusColor(t)
    ensures GetStatusColor("conflicted") == GetStatusColor("unknown")
    ensures GetStatusIcon("conflicted") != GetStatusIcon("unknown")
  {
  }

  // ---------------------------------------------------------------------
  // Branch colours
  // ---------------------------------------------------------------------

  /** BRANCH_COLOR_COUNT: the number of branch colour slots. */
  const BranchColorCount: int := 10

  /**
   * JavaScript's `%` on integers: the remainder of division truncated
   * toward zero, so it takes the sign of the dividend (Dafny's `%` is
   * Euclidean and never negative).
   */
  function JsRem(a: int, b: int): (r: int)
    requires b > 0
    ensures -b < r < b
    ensures a >= 0 ==> r >= 0
    ensures a < 0 ==> r <= 0
  {
    if a >= 0 then a % b else -((-a) % b)
  }

  /** Euclidean division by the colour count is determined by quotient and remainder. */
  lemma ModUnique(x: int, q: int, m: int)
    requires x == BranchColorCount * q + m && 0 <= m < BranchColorCount
    ensures x % BranchColorCount == m && x / BranchColorCount == q
  {
  }

  /** Every integer is a multiple of the colour count plus its remainder. */
  lemma ModSplit(x: int)
    ensures x == BranchColorCount * (x / BranchColorCount) + x % BranchColorCount
    ensures 0 <= x % BranchColorCount < BranchColorCount
  {
  }

  /**
   * At the colour count, JsRem differs from the dividend by a multiple of
   * the count, and sign and congruence single it out.
   */
  lemma JsRemSpec(a: int, r: int)
    ensures (a - JsRem(a, BranchColorCount)) % BranchColorCount == 0
    ensures -BranchColorCount < r < BranchColorCount && (a - r) % BranchColorCount == 0
            && (a >= 0 ==> r >= 0) && (a < 0 ==> r <= 0)
            ==> r == JsRem(a, BranchColorCount)
  {
    var j := JsRem(a, BranchColorCount);
    var q: int;
    if a >= 0 {
      ModSplit(a);
      q := a / BranchColorCount;
    } else {
      ModSplit(-a);
      q := -((-a) / BranchColorCount);
    }
    assert a - j == BranchColorCount * q;
    ModUnique(a - j, q, 0);
    if -BranchColorCount < r < BranchColorCount && (a - r) % BranchColorCount == 0 {
      ModSplit(a - r);
      var q' := (a - r) / BranchColorCount;
      assert r - j == BranchColorCount * (q - q');
    }
  }

  /**
   * getBranchColorIndex: `((c % 10) + 10) % 10` with JavaScript's `%`,
   * which lands in [0, 10) for negative indices too.
   */
  function GetBranchColorIndex(colorIndex: int): (idx: int)
    ensures 0 <= idx < BranchColorCount
  {
    JsRem(JsRem(colorIndex, BranchColorCount) + BranchColorCount, BranchColorCount)
  }

  /**
   * The colour index is the (never negative) Euclidean remainder of the
   * branch's index, so it is congruent to the index mod the colour count.
   */
  lemma BranchColorIndexIsMod(colorIndex: int)
    ensures GetBranchColorIndex(colorIndex) == colorIndex % BranchColorCount
    ensures (GetBranchColorIndex(colorIndex) - colorIndex) % BranchColorCount == 0
  {
    var c := colorIndex;
    var r := JsRem(c, BranchColorCount);
    var idx := GetBranchColorIndex(c);
    if c >= 0 {
      ModUnique(r + BranchColorCount, 1, r);
    } else {
      ModSplit(-c);
      var q := (-c) / BranchColorCount;
      if r == 0 {
        ModUnique(BranchColorCount, 1, 0);
        ModUnique(c, -q, 0);
      } else {
        ModUnique(r + BranchColorCount, 0, r + BranchColorCount);
        ModUnique(c, -q - 1, r + BranchColorCount);
      }
    }
    ModSplit(c);
    ModUnique(idx - c, -(c / BranchColorCount), 0);
  }

  /** Indices already in range are kept, and normalising twice is normalising once. */
  lemma BranchColorIndexNormal(colorIndex: int)
    ensures 0 <= colorIndex < BranchColorCount ==> GetBranchColorIndex(colorIndex) == colorIndex
    ensures GetBranchColorIndex(GetBranchColorIndex(colorIndex)) == GetBranchColorIndex(colorIndex)
  {
    var idx := GetBranchColorIndex(colorIndex);
    BranchColorIndexIsMod(colorIndex);
    BranchColorIndexIsMod(idx);
    ModUnique(idx, 0, idx);
    if 0 <= colorIndex < BranchColorCount {
      ModUnique(colorIndex, 0, colorIndex);
    }
  }

  /** Two branch indices get the same colour exactly when they are congruent mod the colour count. */
  lemma BranchColorIndexSame(a: int, b: int)
    ensures GetBranchColorIndex(a) == GetBranchColorIndex(b) <==> (a - b) % BranchColorCount == 0
  {
    BranchColorIndexIsMod(a);
    BranchColorIndexIsMod(b);
    ModSplit(a);
    ModSplit(b);
    ModSplit(a - b);
    if a % BranchColorCount == b % BranchColorCount {
      ModUnique(a - b, a / BranchColorCount - b / BranchColorCount, 0);
    }
    if (a - b) % BranchColorCount == 0 {
      ModUnique(a, (a - b) / BranchColorCount + b / BranchColorCount, b % BranchColorCount);
    }
  }

  /** The decimal digit of a colour index. */
  function Digit(d: int): char
    requires 0 <= d < 10
  {
    (d + '0' as int) as char
  }

  /** getBranchColorHsl: the CSS colour variable of the branch's colour slot. */
  function GetBranchColorHsl(colorIndex: int): (css: string)
    ensures |css| == 20
    ensures css[17] as int - '0' as int == GetBranchColorIndex(colorIndex)
  {
    "hsl(var(--branch-" + [Digit(GetBranchColorIndex(colorIndex))] + "))"
  }

  /**
   * The colour string names the slot GetBranchColorIndex picks: it has a
   * fixed frame around one decimal digit, reading that digit back gives the
   * index, and so two branches get the same string exactly when they get
   * the same index.
   */
  lemma BranchColorHslSpec(a: int, b: int)
    ensures |GetBranchColorHsl(a)| == 20
    ensures GetBranchColorHsl(a)[..17] == "hsl(var(--branch-" && GetBranchColorHsl(a)[18..] == "))"
    ensures GetBranchColorHsl(a)[17] as int - '0' as int == GetBranchColorIndex(a)
    ensures GetBranchColorHsl(a) == GetBranchColorHsl(b) <==> GetBranchColorIndex(a) == GetBranchColorIndex(b)
  {
    var s, t := GetBranchColorHsl(a), GetBranchColorHsl(b);
    if s == t {
      assert s[17] == t[17];
    }
  }
}
