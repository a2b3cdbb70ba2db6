/** `x::Filesystem::Path` on POSIX: a path holds only the normalised form of
    the string it was built from. Normalisation keeps the non-empty, non-`.`
    segments, lets `..` cancel the segment before it, and writes each kept
    segment after a separator. The calls that reach the file system are not
    part of this model. */
module Filesystem {
  import opened Wrappers

  /** `PATH_SEPARATOR` off Windows. */
  const Separator: char := '/'

  /** `s.find(c, start)`: the first index from `start` on that holds `c`,
      or `|s|` where the library answers `npos`. */
  function FindFrom(s: string, c: char, start: nat): (i: nat)
    requires start <= |s|
    ensures start <= i <= |s|
    ensures i < |s| ==> s[i] == c
    ensures forall k :: start <= k < i ==> s[k] != c
    decreases |s| - start
  {
    if start == |s| || s[start] == c then start else FindFrom(s, c, start + 1)
  }

  /** `s.find(c)`: the first index of `c` in `s`, or `|s|`. */
  function Find(s: string, c: char): (i: nat)
    ensures i <= |s|
    ensures i < |s| ==> s[i] == c
    ensures forall k :: 0 <= k < i ==> s[k] != c
  {
    FindFrom(s, c, 0)
  }

  /** `s.find_last_of(c)`: the last index of `c` in `s`, or none (`npos`). */
  function FindLast(s: string, c: char): (r: Option<nat>)
    ensures r.None? <==> c !in s
    ensures r.Some? ==> r.value < |s| && s[r.value] == c && forall k :: r.value < k < |s| ==> s[k] != c
  {
    if s == [] then None
    else if s[|s| - 1] == c then Some(|s| - 1)
    else FindLast(s[..|s| - 1], c)
  }

  /** The first `c` from `start` on is the only index that answers. */
  lemma {:induction false} FindFromIs(s: string, c: char, start: nat, i: nat)
    requires start <= i <= |s| && (i < |s| ==> s[i] == c)
    requires forall k :: start <= k < i ==> s[k] != c
    ensures FindFrom(s, c, start) == i
    decreases |s| - start
  {
    if start < i {
      FindFromIs(s, c, start + 1, i);
    }
  }

  lemma FindIs(s: string, c: char, i: nat)
    requires i <= |s| && (i < |s| ==> s[i] == c)
    requires forall k :: 0 <= k < i ==> s[k] != c
    ensures Find(s, c) == i
  {
    FindFromIs(s, c, 0, i);
  }

  lemma FindLastIs(s: string, c: char, i: nat)
    requires i < |s| && s[i] == c
    requires forall k :: i < k < |s| ==> s[k] != c
    ensures FindLast(s, c) == Some(i)
  {
  }

  /** The effect of one segment on the kept segments: `..` drops the last
      kept segment unless there is none or it is itself `..`; an empty or
      `.` segment is skipped; any other segment is kept. */
  function Step(parts: seq<string>, part: string): seq<string> {
    if part == ".." && |parts| > 0 && parts[|parts| - 1] != ".." then parts[..|parts| - 1]
    else if part != "" && part != "." then parts + [part]
    else parts
  }

  /** The kept segments after scanning `rest` one separator-delimited segment
      at a time, starting from `parts`. */
  function Collapse(rest: string, parts: seq<string>): seq<string>
    decreases |rest|
  {
    if rest == [] then parts
    else
      var end := Find(rest, Separator);
      Collapse(if end < |rest| then rest[end + 1..] else [], Step(parts, rest[..end]))
  }

  /** The segments that survive normalisation of `raw`. */
  function Segments(raw: string): seq<string> {
    Collapse(raw, [])
  }

  /** Each kept segment written after a separator, in order. */
  function Joined(parts: seq<string>): string {
    if parts == [] then [] else [Separator] + parts[0] + Joined(parts[1..])
  }

  /** `result += PATH_SEPARATOR + part` adds one segment at the end. */
  lemma {:induction false} JoinedSnoc(ps: seq<string>, x: string)
    ensures Joined(ps + [x]) == Joined(ps) + [Separator] + x
    decreases |ps|
  {
    if ps == [] {
      assert [] + [x] == [x] && [x][1..] == [];
    } else {
      assert (ps + [x])[1..] == ps[1..] + [x];
      JoinedSnoc(ps[1..], x);
    }
  }

  /** Extending a prefix of the segments by one adds that segment, and the
      whole prefix joins like the segments themselves. */
  lemma {:induction false} JoinedPrefix(ps: seq<string>, i: nat)
    requires i <= |ps|
    ensures i < |ps| ==> Joined(ps[..i + 1]) == Joined(ps[..i]) + [Separator] + ps[i]
    ensures i == |ps| ==> Joined(ps[..i]) == Joined(ps)
  {
    if i < |ps| {
      assert ps[..i + 1] == ps[..i] + [ps[i]];
      JoinedSnoc(ps[..i], ps[i]);
    } else {
      assert ps[..i] == ps;
    }
  }

  /** The joined segments, or the lone separator when none is kept. */
  function Render(parts: seq<string>): string {
    if parts == [] then [Separator] else Joined(parts)
  }

  /** What `Path::Normalize(raw)` returns on POSIX. */
  function NormalForm(raw: string): string {
    Render(Segments(raw))
  }

  /** A string that normalisation leaves as it is. */
  predicate Normal(s: string) {
    NormalForm(s) == s
  }

  /** The segments kept after scanning `raw` from index `start` on,
      starting from `parts`: the loop of `Path::Normalize`, one turn per
      segment. */
  function Scan(raw: string, start: nat, parts: seq<string>): seq<string>
    decreases |raw| - start
  {
    if start >= |raw| then parts
    else
      var end := FindFrom(raw, Separator, start);
      Scan(raw, end + 1, Step(parts, raw[start..end]))
  }

  /** One segment scanned from index `start`: the segment runs up to the
      next separator or the end, and scanning resumes after it. */
  lemma {:induction false} CollapseAt(raw: string, start: nat, parts: seq<string>)
    requires start < |raw|
    ensures var end := FindFrom(raw, Separator, start);
      Collapse(raw[start..], parts)
        == Collapse(if end + 1 < |raw| then raw[end + 1..] else [], Step(parts, raw[start..end]))
  {
    hide Collapse, Step, FindFrom, Find;
    var end := FindFrom(raw, Separator, start);
    var p, t := raw[start..end], raw[end..];
    assert raw[start..] == p + t;
    CollapseFirst(p, t, parts);
    if end + 1 < |raw| {
      assert t[1..] == raw[end + 1..];
    } else if end < |raw| {
      assert |t[1..]| == 0;
    }
  }

  /** One turn of the loop of `Path::Normalize`. */
  lemma ScanAt(raw: string, start: nat, parts: seq<string>)
    requires start < |raw|
    ensures var end := FindFrom(raw, Separator, start);
      Scan(raw, start, parts) == Scan(raw, end + 1, Step(parts, raw[start..end]))
  {
  }

  /** Scanning from `start` agrees with scanning what is left from it,
      given that it does from the start of the next segment. */
  lemma {:induction false} ScanStep(raw: string, start: nat, parts: seq<string>)
    requires start < |raw|
    requires var end := FindFrom(raw, Separator, start);
      var next := Step(parts, raw[start..end]);
      Scan(raw, end + 1, next) == Collapse(if end + 1 < |raw| then raw[end + 1..] else [], next)
    ensures Scan(raw, start, parts) == Collapse(raw[start..], parts)
  {
    hide Scan, Collapse, FindFrom, Find, Step;
    ScanAt(raw, start, parts);
    CollapseAt(raw, start, parts);
  }

  /** Scanning from the end keeps the segments as they are. */
  lemma ScanDone(raw: string, start: nat, parts: seq<string>)
    requires start >= |raw|
    ensures Scan(raw, start, parts) == Collapse([], parts) == parts
  {
  }

  /** Scanning from an index agrees with scanning what is left from it. */
  lemma {:induction false} ScanFrom(raw: string, start: nat, parts: seq<string>)
    ensures Scan(raw, start, parts) == Collapse(if start < |raw| then raw[start..] else [], parts)
    decreases |raw| - start
  {
    hide *;
    if start < |raw| {
      var end := FindFrom(raw, Separator, start);
      ScanFrom(raw, end + 1, Step(parts, raw[start..end]));
      ScanStep(raw, start, parts);
    } else {
      ScanDone(raw, start, parts);
    }
  }

  /** `Path::Normalize(rawPath)`: splits at each separator, keeps or cancels
      each segment, then writes every kept segment after a separator. */
  method Normalize(raw: string) returns (result: string)
    ensures result == NormalForm(raw)
  {
    var parts: seq<string> := [];
    var start := 0;
    while start < |raw|
      invariant Scan(raw, start, parts) == Scan(raw, 0, [])
      decreases |raw| - start
    {
      var end := FindFrom(raw, Separator, start);
      var part := raw[start..end];
      if part == ".." && |parts| > 0 && parts[|parts| - 1] != ".." {
        parts := parts[..|parts| - 1];
      } else if part != "" && part != "." {
        parts := parts + [part];
      }
      start := end + 1;
    }
    ScanFrom(raw, 0, []);
    result := [];
    var i := 0;
    while i < |parts|
      invariant i <= |parts| && result == Joined(parts[..i])
    {
      JoinedPrefix(parts, i);
      result := result + [Separator] + parts[i];
      i := i + 1;
    }
    JoinedPrefix(parts, |parts|);
    if result == [] {
      result := [Separator];
    }
  }

  /** A kept segment: not empty, not `.`, and free of separators. */
  predicate Segment(part: string) {
    part != "" && part != "." && Separator !in part
  }

  /** Kept segments in normal form: each is a segment, and `..` occurs only
      in a leading run. */
  predicate Canonical(parts: seq<string>) {
    && (forall i :: 0 <= i < |parts| ==> Segment(parts[i]))
    && (forall i, j :: 0 <= i < j < |parts| && parts[j] == ".." ==> parts[i] == "..")
  }

  lemma {:induction false} StepCanonical(parts: seq<string>, part: string)
    requires Canonical(parts) && Separator !in part
    ensures Canonical(Step(parts, part))
  {
    var n := |parts|;
    if part == ".." && !(n > 0 && parts[n - 1] != "..") {
      forall i | 0 <= i < n ensures parts[i] == ".." {
        if i < n - 1 {
          assert parts[n - 1] == "..";
        }
      }
    }
  }

  /** Scanning keeps the kept segments in normal form. */
  lemma {:induction false} CollapseCanonical(rest: string, parts: seq<string>)
    requires Canonical(parts)
    ensures Canonical(Collapse(rest, parts))
    decreases |rest|
  {
    if rest != [] {
      var end := Find(rest, Separator);
      assert Separator !in rest[..end];
      StepCanonical(parts, rest[..end]);
      CollapseCanonical(if end < |rest| then rest[end + 1..] else [], Step(parts, rest[..end]));
    }
  }

  /** Joined segments start with a separator, do not end with one, and never
      hold two separators in a row. */
  lemma {:induction false} JoinedShape(ps: seq<string>)
    requires forall i :: 0 <= i < |ps| ==> Segment(ps[i])
    ensures ps == [] <==> Joined(ps) == []
    ensures Joined(ps) != [] ==> Joined(ps)[0] == Separator && Joined(ps)[|Joined(ps)| - 1] != Separator
    ensures forall i :: 0 <= i < |Joined(ps)| - 1 ==> !(Joined(ps)[i] == Separator && Joined(ps)[i + 1] == Separator)
    decreases |ps|
  {
    if ps != [] {
      var p, rest := ps[0], ps[1..];
      assert Segment(p);
      JoinedShape(rest);
      var t := Joined(rest);
      var r := Joined(ps);
      assert r == [Separator] + p + t;
      forall i | 0 <= i < |r| - 1
        ensures !(r[i] == Separator && r[i + 1] == Separator)
      {
        if i < |p| {
          assert r[i + 1] == p[i];
        } else if i == |p| {
          assert r[i] == p[i - 1];
        } else {
          assert r[i] == t[i - |p| - 1] && r[i + 1] == t[i - |p|];
        }
      }
      if t != [] {
        assert r[|r| - 1] == t[|t| - 1];
      } else {
        assert r[|r| - 1] == p[|p| - 1];
      }
    }
  }

  /** The first of several segments in normal form is kept when scanned
      after the ones before it, and the rest stay in normal form. */
  lemma {:induction false} CanonicalFront(acc: seq<string>, ps: seq<string>)
    requires ps != [] && Canonical(acc + ps)
    ensures Segment(ps[0]) && Step(acc, ps[0]) == acc + [ps[0]]
    ensures Canonical((acc + [ps[0]]) + ps[1..])
    ensures (acc + [ps[0]]) + ps[1..] == acc + ps
  {
    var p := ps[0];
    assert (acc + ps)[|acc|] == p;
    if p == ".." && |acc| > 0 {
      assert (acc + ps)[|acc| - 1] == "..";
    }
    assert (acc + [p]) + ps[1..] == acc + ps;
  }

  /** Scanning one segment (possibly empty) followed by a separator or the
      end. */
  lemma {:induction false} CollapseFirst(p: string, t: string, acc: seq<string>)
    requires p + t != [] && Separator !in p && (t == [] || t[0] == Separator)
    ensures Collapse(p + t, acc) == Collapse(if t == [] then [] else t[1..], Step(acc, p))
  {
    var s := p + t;
    FindIs(s, Separator, |p|);
    assert s[..|p|] == p;
    if t != [] {
      assert s[|p| + 1..] == t[1..];
    }
  }

  /** Scanning the joined segments after their leading separator keeps every
      one of them. */
  lemma {:induction false} CollapseSegments(ps: seq<string>, acc: seq<string>)
    requires ps != [] && Canonical(acc + ps)
    ensures Collapse(Joined(ps)[1..], acc) == acc + ps
    decreases |ps|
  {
    var p, rest := ps[0], ps[1..];
    CanonicalFront(acc, ps);
    JoinedTail(ps);
    JoinedStart(rest);
    var t := Joined(rest);
    hide Canonical, Step, Joined, Find, Collapse;
    CollapseFirst(p, t, acc);
    if rest != [] {
      CollapseSegments(rest, acc + [p]);
    }
  }

  /** The joined segments after their leading separator: the first segment,
      then the joined rest. */
  lemma {:induction false} JoinedTail(ps: seq<string>)
    requires ps != []
    ensures |Joined(ps)| > 0 && Joined(ps)[1..] == ps[0] + Joined(ps[1..])
  {
    var j, t := Joined(ps), Joined(ps[1..]);
    assert j == [Separator] + ps[0] + t;
    assert j[1..] == ps[0] + t;
  }

  /** Joined segments are empty exactly when there are none, and otherwise
      start with a separator. */
  lemma {:induction false} JoinedStart(ps: seq<string>)
    ensures ps == [] <==> Joined(ps) == []
    ensures Joined(ps) != [] ==> Joined(ps)[0] == Separator
  {
  }

  /** Normalising the rendering of segments in normal form gives back the
      same segments. */
  lemma {:induction false} RenderCollapse(ps: seq<string>)
    requires Canonical(ps)
    ensures Segments(Render(ps)) == ps
  {
    if ps == [] {
      var s := Render(ps);
      assert s == [] + [Separator];
      CollapseFirst([], [Separator], []);
      assert Step([], []) == [];
    } else {
      var s := Joined(ps);
      JoinedStart(ps);
      CollapseFirst([], s, []);
      assert Step([], []) == [];
      hide Joined, Step, Collapse, Canonical;
      CollapseSegments(ps, []);
    }
  }

  /** The segments of any normal form are in normal form, and a normal
      string is the rendering of its segments. */
  lemma {:induction false} NormalSegments(s: string)
    ensures Canonical(Segments(s))
    ensures Normal(s) ==> s == Render(Segments(s))
  {
    CollapseCanonical(s, []);
  }

  /** Normalisation is idempotent: a `Path` built from a path's own string
      is that path. */
  lemma {:induction false} NormalFormIdempotent(raw: string)
    ensures Normal(NormalForm(raw))
    ensures Segments(NormalForm(raw)) == Segments(raw)
  {
    CollapseCanonical(raw, []);
    RenderCollapse(Segments(raw));
  }

  /** The shape of a normal form: it is never empty, it starts with the
      separator, it is the lone separator exactly when no segment survives,
      otherwise it does not end with the separator, it never holds two
      separators in a row, and its segments contain no `.` and hold `..`
      only as a leading run. */
  lemma {:induction false} NormalFormShape(raw: string)
    ensures var r := NormalForm(raw);
      && |r| > 0 && r[0] == Separator
      && (r == [Separator] <==> Segments(raw) == [])
      && (r != [Separator] ==> r[|r| - 1] != Separator)
      && (forall i :: 0 <= i < |r| - 1 ==> !(r[i] == Separator && r[i + 1] == Separator))
      && Canonical(Segments(r))
  {
    var ps := Segments(raw);
    CollapseCanonical(raw, []);
    JoinedShape(ps);
    if ps != [] {
      var r := Joined(ps);
      assert r != [Separator] by {
        assert r == [Separator] + ps[0] + Joined(ps[1..]);
        assert |ps[0]| > 0;
      }
    }
    NormalFormIdempotent(raw);
  }

  /** `std::to_string` of a non-negative integer: its decimal digits. */
  function ToDecimal(n: nat): (s: string)
    ensures |s| > 0 && forall i :: 0 <= i < |s| ==> '0' <= s[i] <= '9'
  {
    if n < 10 then [Digit(n)] else ToDecimal(n / 10) + [Digit(n % 10)]
  }

  function Digit(d: nat): (c: char)
    requires d < 10
    ensures '0' <= c <= '9'
  {
    ('0' as int + d) as char
  }

  /** `std::to_string(PATH_SEPARATOR)` promotes the character to its code,
      so it writes the two digits of 47. */
  lemma SeparatorToString()
    ensures ToDecimal(Separator as nat) == "47"
  {
    assert Separator as nat == 47;
  }

  /** The static `Path::Join(lhs, rhs)`. */
  function JoinStrings(lhs: string, rhs: string): string {
    if lhs == [] then lhs
    else if rhs == [] then rhs
    else if lhs[|lhs| - 1] == Separator then lhs + rhs
    else lhs + [Separator] + rhs
  }

  /** `Path::Join` with an empty right-hand side as evidently intended: the
      left-hand side is kept. */
  function JoinStringsIntended(lhs: string, rhs: string): string {
    if lhs == [] then rhs
    else if rhs == [] then lhs
    else if lhs[|lhs| - 1] == Separator then lhs + rhs
    else lhs + [Separator] + rhs
  }

  /** `explicit Path(const str& path)`: stores the normal form. */
  function FromString(raw: string): (p: Path)
    ensures Normal(p.path)
    ensures Segments(p.path) == Segments(raw)
  {
    NormalFormIdempotent(raw);
    Path(NormalForm(raw))
  }

  /** `x::Filesystem::Path`: its only state is the normalised string. */
  datatype Path = Path(path: string) {

    /** `Str()` */
    function Str(): string {
      path
    }

    /** `operator==`: the stored strings are equal. */
    predicate Equals(other: Path) {
      path == other.path
    }

    /** `HasExtension()`: there is a `.`, and no separator comes after the
        last one. */
    predicate HasExtension() {
      var dot, sep := FindLast(path, '.'), FindLast(path, Separator);
      dot.Some? && (sep.None? || dot.value > sep.value)
    }

    /** `Extension()`: everything after the last `.`, or empty without an
        extension. */
    function Extension(): (ext: string)
      ensures !HasExtension() ==> ext == []
      ensures HasExtension() ==>
        && '.' !in ext && Separator !in ext && |ext| < |path|
        && path[|path| - |ext| - 1] == '.' && path[|path| - |ext|..] == ext
    {
      if !HasExtension() then []
      else
        var dot := FindLast(path, '.').value;
        assert forall k :: dot < k < |path| ==> path[k] != Separator by {
          var sep := FindLast(path, Separator);
        }
        path[dot + 1..]
    }

    /** The path without its extension, if it has one. */
    function Kept(): string {
      if !HasExtension() then path else path[..FindLast(path, '.').value]
    }

    /** `ReplaceExtension(ext)`: appends `.ext` without an extension,
        otherwise replaces everything after the last `.` with `ext`. */
    function ReplaceExtension(ext: string): Path {
      FromString(Kept() + "." + ext)
    }

    /** `Join(subPath)` and `operator/(subPath)`. */
    function Join(subPath: string): Path {
      FromString(JoinStrings(path, subPath))
    }

    /** `Join(subPath)` with the evidently intended handling of an empty
        `subPath`. */
    function JoinIntended(subPath: string): Path {
      FromString(JoinStringsIntended(path, subPath))
    }

    /** `Parent()` as written: the part before the last separator, or, when
        that separator is the first character, the path built from
        `std::to_string(PATH_SEPARATOR)`. */
    function Parent(): Path {
      var sep := FindLast(path, Separator);
      if sep.None? || sep.value == 0 then FromString(ToDecimal(Separator as nat))
      else FromString(path[..sep.value])
    }

    /** `Parent()` as evidently intended: the root `str(1, PATH_SEPARATOR)`
        that `CreateAll` stops at. */
    function ParentIntended(): Path {
      var sep := FindLast(path, Separator);
      if sep.None? || sep.value == 0 then FromString([Separator])
      else FromString(path[..sep.value])
    }
  }

  /** Two paths are equal exactly when their strings normalise alike. */
  lemma {:induction false} EqualsIffSameNormalForm(a: string, b: string)
    ensures FromString(a).Equals(FromString(b)) <==> NormalForm(a) == NormalForm(b)
    ensures FromString(a).Equals(FromString(b)) <==> FromString(a) == FromString(b)
  {
  }

  /** Rebuilding a path from its own string gives the same path. */
  lemma {:induction false} FromOwnString(p: Path)
    requires Normal(p.path)
    ensures FromString(p.Str()) == p
  {
  }

  /** A path whose last segment is `x.ext`, `ext` holding no `.` or
      separator, has the extension `ext`. */
  lemma {:induction false} ExtensionOf(a: string, x: string, ext: string)
    requires Separator !in x && '.' !in ext && Separator !in ext
    ensures var p := Path(a + [Separator] + x + "." + ext);
      p.HasExtension() && p.Extension() == ext && p.Kept() == a + [Separator] + x
  {
    var s := a + [Separator] + x + "." + ext;
    var dot := |a| + 1 + |x|;
    assert s[dot] == '.';
    assert forall k :: dot < k < |s| ==> s[k] == ext[k - dot - 1];
    FindLastIs(s, '.', dot);
    assert s[|a|] == Separator;
    assert forall k :: |a| < k < dot ==> s[k] == x[k - |a| - 1];
    FindLastIs(s, Separator, |a|);
    assert s[dot + 1..] == ext;
    assert s[..dot] == a + [Separator] + x;
  }

  /** A normal path with at least one segment is its leading segments
      joined, a separator, and its last segment; that separator is the last
      one in the path. */
  lemma {:induction false} LastSegment(p: Path) returns (init: seq<string>, last: string)
    requires Normal(p.path) && Segments(p.path) != []
    ensures Segments(p.path) == init + [last]
    ensures Canonical(init) && Segment(last)
    ensures p.path == Joined(init) + [Separator] + last
    ensures FindLast(p.path, Separator) == Some(|Joined(init)|)
  {
    var ps := Segments(p.path);
    NormalSegments(p.path);
    init, last := ps[..|ps| - 1], ps[|ps| - 1];
    assert ps == init + [last];
    JoinedSnoc(init, last);
    assert forall i :: 0 <= i < |init| ==> init[i] == ps[i];
    var s, j := p.path, Joined(init);
    assert forall k :: |j| < k < |s| ==> s[k] == last[k - |j| - 1];
    FindLastIs(s, Separator, |j|);
  }

  /** The last `.` of a path whose last segment holds one lies in that
      segment. */
  lemma {:induction false} DotInLast(j: string, last: string) returns (d: nat)
    requires '.' in last
    ensures d < |last| && last[d] == '.' && '.' !in last[d + 1..]
    ensures FindLast(j + [Separator] + last, '.') == Some(|j| + 1 + d)
  {
    d := FindLast(last, '.').value;
    var s := j + [Separator] + last;
    assert forall k :: |j| + 1 + d < k < |s| ==> s[k] == last[k - |j| - 1];
    FindLastIs(s, '.', |j| + 1 + d);
  }

  /** The last `.` of a path whose last segment holds none, if any, lies
      before that segment. */
  lemma {:induction false} NoDotInLast(j: string, last: string)
    requires '.' !in last
    ensures var dot := FindLast(j + [Separator] + last, '.');
      dot.Some? ==> dot.value < |j|
  {
    var s := j + [Separator] + last;
    assert forall k :: |j| < k < |s| ==> s[k] == last[k - |j| - 1];
  }

  /** A normal path has an extension exactly when it has a last segment and
      that segment holds a `.`. */
  lemma {:induction false} HasExtensionOfNormal(p: Path)
    requires Normal(p.path)
    ensures var ps := Segments(p.path);
      p.HasExtension() <==> ps != [] && '.' in ps[|ps| - 1]
  {
    var ps := Segments(p.path);
    NormalSegments(p.path);
    if ps == [] {
      assert p.path == [Separator];
      assert FindLast(p.path, '.') == None;
    } else {
      var init, last := LastSegment(p);
      var s, j := p.path, Joined(init);
      if '.' in last {
        var d := DotInLast(j, last);
      } else {
        NoDotInLast(j, last);
      }
    }
  }

  /** A path holding segments in normal form is built from its rendering. */
  lemma {:induction false} FromRender(ps: seq<string>)
    requires Canonical(ps)
    ensures FromString(Render(ps)) == Path(Render(ps))
  {
    RenderCollapse(ps);
  }

  /** A last segment with a `.ext` suffix appended keeps segments in normal
      form. */
  lemma {:induction false} CanonicalWithSuffix(init: seq<string>, stem: string, ext: string)
    requires Canonical(init) && Separator !in stem
    requires ext != [] && '.' !in ext && Separator !in ext
    ensures Canonical(init + [stem + "." + ext])
    ensures Render(init + [stem + "." + ext]) == Joined(init) + [Separator] + stem + "." + ext
  {
    var last := stem + "." + ext;
    var ps := init + [last];
    assert last[|last| - 1] == ext[|ext| - 1];
    assert last != "..";
    assert forall i :: 0 <= i < |init| ==> ps[i] == init[i];
    JoinedSnoc(init, last);
  }

  /** What `ReplaceExtension` keeps of a normal path before appending
      `.ext`: its leading segments, then the stem of its last segment (all
      of it when it holds no `.`). */
  lemma {:induction false} ReplacedParts(p: Path) returns (init: seq<string>, stem: string)
    requires Normal(p.path)
    ensures Canonical(init) && Separator !in stem
    ensures var ps := Segments(p.path);
      && (ps == [] ==> init == [])
      && (ps != [] ==> init == ps[..|ps| - 1])
    ensures p.Kept() == Joined(init) + [Separator] + stem
  {
    var ps := Segments(p.path);
    NormalSegments(p.path);
    HasExtensionOfNormal(p);
    if ps == [] {
      init, stem := [], [];
      assert p.path == [Separator];
    } else {
      var last;
      init, last := LastSegment(p);
      assert init == ps[..|ps| - 1];
      var j := Joined(init);
      if '.' in last {
        var d := DotInLast(j, last);
        stem := last[..d];
        assert p.path[..|j| + 1 + d] == j + [Separator] + stem;
      } else {
        stem := last;
      }
    }
  }

  /** `ReplaceExtension` completes a round trip with `Extension`: for an
      extension without `.` or separator, the new path has exactly that
      extension, and it is the old path with only its last segment changed
      (or a segment added at the root); everything up to the last `.` is
      kept, so replacing again keeps the same stem. */
  lemma {:induction false} ReplaceExtensionRoundTrip(p: Path, ext: string)
    requires Normal(p.path)
    requires ext != [] && '.' !in ext && Separator !in ext
    ensures p.ReplaceExtension(ext).HasExtension()
    ensures p.ReplaceExtension(ext).Extension() == ext
    ensures var ps, qs := Segments(p.path), Segments(p.ReplaceExtension(ext).path);
      && |qs| == (if ps == [] then 1 else |ps|)
      && (ps != [] ==> qs[..|ps| - 1] == ps[..|ps| - 1])
    ensures p.ReplaceExtension(ext).path == p.Kept() + "." + ext
    ensures p.ReplaceExtension(ext).Kept() == p.Kept()
  {
    var init, stem := ReplacedParts(p);
    assert p.ReplaceExtension(ext) == FromString(Joined(init) + [Separator] + stem + "." + ext);
    CanonicalWithSuffix(init, stem, ext);
    var qs := init + [stem + "." + ext];
    FromRender(qs);
    ExtensionOf(Joined(init), stem, ext);
    RenderCollapse(qs);
    assert qs[..|qs| - 1] == init;
  }

  /** Joining a normal path with one plain segment appends that segment. */
  lemma {:induction false} JoinSegment(p: Path, name: string)
    requires Normal(p.path) && Segment(name) && name != ".."
    ensures p.Join(name) == Path(Joined(Segments(p.path)) + [Separator] + name)
    ensures Segments(p.Join(name).path) == Segments(p.path) + [name]
  {
    var ps := Segments(p.path);
    NormalSegments(p.path);
    JoinedShape(ps);
    JoinedSnoc(ps, name);
    var qs := ps + [name];
    assert Canonical(qs) by {
      assert forall i :: 0 <= i < |ps| ==> qs[i] == ps[i];
    }
    assert JoinStrings(p.path, name) == Render(qs);
    FromRender(qs);
    RenderCollapse(qs);
  }

  /** `std::to_string(PATH_SEPARATOR)` normalises to `/47`. */
  lemma FortySeven()
    ensures FromString(ToDecimal(Separator as nat)) == Path("/47")
  {
    SeparatorToString();
    var d: string := "47";
    assert d + [] == d;
    CollapseFirst(d, [], []);
    assert Step([], d) == [d];
    assert Segments(d) == [d];
    assert Joined(["47"]) == [Separator] + "47" + Joined([]);
  }

  /** As written, `Parent` of a path directly below the root is `/47`, and
      `/47` is its own parent, so `CreateAll`, which stops at `/`, never
      reaches the root from there. */
  lemma {:induction false} ParentBelowRoot(name: string)
    requires Segment(name) && name != ".."
    ensures Path([Separator]).Join(name).Parent() == Path("/47")
    ensures Path("/47").Parent() == Path("/47")
  {
    var root := Path([Separator]);
    RenderCollapse([]);
    JoinSegment(root, name);
    var q := [Separator] + name;
    assert root.Join(name) == Path(q);
    assert forall k :: 0 < k < |q| ==> q[k] == name[k - 1];
    FindLastIs(q, Separator, 0);
    FindLastIs("/47", Separator, 0);
    FortySeven();
  }

  /** With the intended root, `Parent` undoes `Join` of one plain segment on
      every normal path, the root included; as written it does so everywhere
      but at the root. */
  lemma {:induction false} ParentIntendedOfJoin(p: Path, name: string)
    requires Normal(p.path) && Segment(name) && name != ".."
    ensures p.Join(name).ParentIntended() == p
    ensures p.path != [Separator] ==> p.Join(name).Parent() == p
  {
    var ps := Segments(p.path);
    NormalSegments(p.path);
    JoinSegment(p, name);
    var j := Joined(ps);
    var q := j + [Separator] + name;
    assert forall k :: |j| < k < |q| ==> q[k] == name[k - |j| - 1];
    FindLastIs(q, Separator, |j|);
    assert q[..|j|] == j;
    if ps == [] {
      FromRender([]);
    } else {
      JoinedShape(ps);
    }
  }

  /** As written, `Parent` undoes `Join` of one plain segment everywhere
      except at the root. */
  lemma {:induction false} ParentOfJoin(p: Path, name: string)
    requires Normal(p.path) && p.path != [Separator] && Segment(name) && name != ".."
    ensures p.Join(name).Parent() == p
  {
    ParentIntendedOfJoin(p, name);
  }

  /** As written, joining an empty string gives the root, whatever the path. */
  lemma JoinEmptyGivesRoot(p: Path)
    ensures p.Join([]) == Path([Separator])
  {
  }

  /** With the intended `Join`, joining an empty string keeps a normal path,
      and any other string joins as before. */
  lemma {:induction false} JoinIntendedKeeps(p: Path, subPath: string)
    requires Normal(p.path)
    ensures p.JoinIntended([]) == p
    ensures subPath != [] ==> p.JoinIntended(subPath) == p.Join(subPath)
  {
    NormalFormShape(p.path);
  }
}
