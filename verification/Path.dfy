/** code/filesys/directory.cc: paths, as C strings without their final NUL, and the names they are made of. */
module Paths {
  import opened Words

  const FILE_NAME_MAX_LEN := 9
  const SLASH: byte := 47

  /** A C string holds no NUL before its end. */
  predicate IsPath(path: text) {
    0 !in path
  }

  function Cut(s: text): (r: text)
    ensures r <= s && |r| <= FILE_NAME_MAX_LEN && (r == s || |r| == FILE_NAME_MAX_LEN)
  {
    if |s| > FILE_NAME_MAX_LEN then s[..FILE_NAME_MAX_LEN] else s
  }

  function SkipSlashes(path: text): (r: text)
    ensures |r| <= |path| && (r != [] ==> r[0] != SLASH)
  {
    if path != [] && path[0] == SLASH then SkipSlashes(path[1..]) else path
  }

  /** The characters in front of the first slash. */
  function FrontElement(path: text): (r: text)
    ensures |r| <= |path| && SLASH !in r && r == path[..|r|]
    ensures |r| < |path| ==> path[|r|] == SLASH
  {
    if path == [] || path[0] == SLASH then [] else [path[0]] + FrontElement(path[1..])
  }

  /** What `skipelem` copies out, and the path it returns; `None` is the null pointer. */
  datatype Element = None | Some(name: text, rest: text)

  function SkipElem(path: text): (r: Element)
    ensures r.Some? ==> |r.rest| < |path| && 0 < |r.name| <= FILE_NAME_MAX_LEN
  {
    var p := SkipSlashes(path);
    if p == [] then None
    else
      var s := FrontElement(p);
      Some(Cut(s), SkipSlashes(p[|s|..]))
  }

  /** All elements, by repeated `skipelem`. */
  function Elements(path: text): seq<text>
    decreases |path|
  {
    match SkipElem(path)
    case None => []
    case Some(name, rest) => [name] + Elements(rest)
  }

  // An independent reading: split at every slash, drop the empty pieces, cut the others.

  function Split(path: text): (r: seq<text>)
    ensures |r| > 0
  {
    if path == [] then [[]]
    else if path[0] == SLASH then [[]] + Split(path[1..])
    else var r := Split(path[1..]); [[path[0]] + r[0]] + r[1..]
  }

  function CutNonEmpty(pieces: seq<text>): seq<text> {
    if pieces == [] then []
    else (if pieces[0] == [] then [] else [Cut(pieces[0])]) + CutNonEmpty(pieces[1..])
  }

  lemma {:induction false} SlashesDoNotCount(path: text)
    ensures CutNonEmpty(Split(SkipSlashes(path))) == CutNonEmpty(Split(path))
  {
    if path != [] && path[0] == SLASH {
      SlashesDoNotCount(path[1..]);
      assert ([[]] + Split(path[1..]))[1..] == Split(path[1..]);
    }
  }

  lemma {:induction false} SplitFront(path: text)
    ensures var s := FrontElement(path);
            Split(path)[0] == s && Split(path)[1..] == if |s| == |path| then [] else Split(path[|s| + 1..])
  {
    if path != [] && path[0] != SLASH {
      SplitFront(path[1..]);
      var s := FrontElement(path[1..]);
      if |s| < |path| - 1 {
        assert path[1..][|s| + 1..] == path[|s| + 2..];
      }
    }
  }

  /** Repeated `skipelem` yields the non-empty pieces between slashes, cut to nine characters. */
  lemma {:induction false} ElementsAre(path: text)
    ensures Elements(path) == CutNonEmpty(Split(path))
    decreases |path|
  {
    var p := SkipSlashes(path);
    SlashesDoNotCount(path);
    if p != [] {
      var s := FrontElement(p);
      SplitFront(p);
      var rest := SkipSlashes(p[|s|..]);
      ElementsAre(rest);
      SlashesDoNotCount(p[|s|..]);
      if |s| < |p| {
        assert p[|s|..][1..] == p[|s| + 1..];
        assert ([[]] + Split(p[|s| + 1..]))[1..] == Split(p[|s| + 1..]);
      } else {
        assert p[|s|..] == [];
      }
      assert Split(p) == [Split(p)[0]] + Split(p)[1..];
    } else {
      assert Split([]) == [[]];
    }
  }

  /** The characters of a name buffer up to its NUL, nine at most, which is what `strncmp` looks at. */
  function CString(name: text): (r: text)
    ensures |r| <= FILE_NAME_MAX_LEN && |r| <= |name| && 0 !in r
  {
    CStringUpTo(name, FILE_NAME_MAX_LEN)
  }

  function CStringUpTo(name: text, n: nat): (r: text)
    ensures |r| <= n && |r| <= |name| && 0 !in r
  {
    if n == 0 || name == [] || name[0] == 0 then [] else [name[0]] + CStringUpTo(name[1..], n - 1)
  }

  lemma {:induction false} CStringIs(name: text, s: text, n: nat)
    requires |s| <= n && s <= name && 0 !in s && (|s| == n || |s| == |name| || name[|s|] == 0)
    ensures CStringUpTo(name, n) == s
  {
    if s != [] {
      assert s[0] in s && s[1..] <= name[1..];
      CStringIs(name[1..], s[1..], n - 1);
    }
  }

  /** `skipelem`: `rest` is where the returned pointer points; `found` is false for the null pointer. */
  method Skipelem(path: text, name: array<byte>) returns (found: bool, rest: nat)
    requires IsPath(path) && name.Length == FILE_NAME_MAX_LEN
    modifies name
    ensures found <==> SkipElem(path).Some?
    ensures found ==> rest <= |path| && path[rest..] == SkipElem(path).rest && CString(name[..]) == SkipElem(path).name
  {
    hide CStringUpTo, SkipSlashes, FrontElement;
    assert path[0..] == path;
    var s := PastSlashes(path, 0);
    if s == |path| {
      return false, 0;
    }
    var at := ElementEnd(path, s);
    ElementIsNotEmpty(path[s..]);
    CopyElement(path[s..at], name);
    rest := PastSlashes(path, at);
    found := true;
  }

  lemma ElementIsNotEmpty(p: text)
    requires p != [] && p[0] != SLASH
    ensures FrontElement(p) != []
  {
  }

  /** The `while` to the next slash or the end. */
  method ElementEnd(path: text, s: nat) returns (at: nat)
    requires s <= |path|
    ensures s <= at <= |path| && path[s..at] == FrontElement(path[s..]) && path[s..][|FrontElement(path[s..])|..] == path[at..]
  {
    at := s;
    while at < |path| && path[at] != SLASH
      invariant s <= at <= |path| && SLASH !in path[s..at]
    {
      assert path[s..at + 1] == path[s..at] + [path[at]];
      at := at + 1;
    }
    assert path[s..][..at - s] == path[s..at] && path[s..][at - s..] == path[at..];
    FrontElementIs(path[s..], at - s);
  }

  /** The `while` over slashes. */
  method PastSlashes(path: text, from: nat) returns (at: nat)
    requires from <= |path|
    ensures from <= at <= |path| && path[at..] == SkipSlashes(path[from..])
  {
    at := from;
    while at < |path| && path[at] == SLASH
      invariant from <= at <= |path| && SkipSlashes(path[at..]) == SkipSlashes(path[from..])
    {
      assert path[at..][1..] == path[at + 1..];
      at := at + 1;
    }
  }

  lemma {:induction false} FrontElementIs(p: text, n: nat)
    requires n <= |p| && SLASH !in p[..n] && (n == |p| || p[n] == SLASH)
    ensures FrontElement(p) == p[..n]
  {
    if n > 0 {
      assert p[0] in p[..n];
      assert p[1..][..n - 1] == p[..n][1..];
      FrontElementIs(p[1..], n - 1);
      assert p[..n] == [p[0]] + p[1..][..n - 1];
    }
  }

  /** The two `memmove`s. */
  method CopyElement(s: text, name: array<byte>)
    requires 0 !in s && s != [] && name.Length == FILE_NAME_MAX_LEN
    modifies name
    ensures CString(name[..]) == Cut(s)
  {
    var len := |s|;
    if len >= FILE_NAME_MAX_LEN {
      forall i | 0 <= i < FILE_NAME_MAX_LEN { name[i] := s[i]; }
      assert name[..] == Cut(s);
    } else {
      forall i | 0 <= i < len { name[i] := s[i]; }
      name[len] := 0;
      assert name[..len] == s;
    }
    assert forall i | 0 <= i < |Cut(s)| :: Cut(s)[i] == s[i] && s[i] in s;
    CStringIs(name[..], Cut(s), FILE_NAME_MAX_LEN);
  }
}
