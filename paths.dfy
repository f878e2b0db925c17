/** POSIX paths as pathlib holds them: an absolute flag and the list of components,
    with empty and "." components already dropped. */
module Paths {
  import opened Common
  import opened Text

  datatype Path = Path(absolute: bool, parts: seq<string>)

  /** A component pathlib keeps: not empty, not ".", without a separator. */
  predicate IsPart(c: string)
  {
    c != "" && c != "." && '/' !in c
  }

  predicate Valid(p: Path)
  {
    forall i | 0 <= i < |p.parts| :: IsPart(p.parts[i])
  }

  /** The pieces of a split path text that survive as components. */
  function KeepParts(pieces: seq<string>): (parts: seq<string>)
    ensures |parts| <= |pieces|
  {
    if pieces == [] then []
    else (if pieces[0] == "" || pieces[0] == "." then [] else [pieces[0]]) + KeepParts(pieces[1..])
  }

  lemma {:induction false} KeepPartsKeepsParts(pieces: seq<string>)
    requires forall i | 0 <= i < |pieces| :: '/' !in pieces[i]
    ensures forall i | 0 <= i < |KeepParts(pieces)| :: IsPart(KeepParts(pieces)[i])
  {
    if pieces != [] {
      KeepPartsKeepsParts(pieces[1..]);
    }
  }

  lemma {:induction false} KeepPartsOfParts(parts: seq<string>)
    requires forall i | 0 <= i < |parts| :: IsPart(parts[i])
    ensures KeepParts(parts) == parts
  {
    if parts != [] {
      KeepPartsOfParts(parts[1..]);
      assert parts == [parts[0]] + parts[1..];
    }
  }

  /** Path(s): a leading '/' makes the path absolute; the pieces between separators that
      are neither empty nor "." are its components. */
  function Parse(s: string): (p: Path)
    ensures Valid(p)
  {
    SplitProperties(s, '/');
    KeepPartsKeepsParts(Split(s, '/'));
    Path(|s| > 0 && s[0] == '/', KeepParts(Split(s, '/')))
  }

  /** str(p). */
  function Str(p: Path): string
  {
    if p.parts == [] then (if p.absolute then "/" else ".")
    else (if p.absolute then "/" else "") + JoinWith(p.parts, '/')
  }

  lemma {:induction false} JoinWithStartsWithFirst(pieces: seq<string>, sep: char)
    requires |pieces| > 0
    ensures |pieces[0]| <= |JoinWith(pieces, sep)|
    ensures JoinWith(pieces, sep)[..|pieces[0]|] == pieces[0]
  {
    if |pieces| > 1 {
      var j := JoinWith(pieces, sep);
      assert j == pieces[0] + ([sep] + JoinWith(pieces[1..], sep));
    }
  }

  /** Rendering a path and reading it back gives the same path. */
  lemma StrParse(p: Path)
    requires Valid(p)
    ensures Parse(Str(p)) == p
  {
    var s := Str(p);
    if p.parts == [] {
      if p.absolute {
        assert Split(s, '/') == ["", ""];
      } else {
        SplitNoSep(s, '/');
      }
    } else {
      var j := JoinWith(p.parts, '/');
      JoinSplit(p.parts, '/');
      KeepPartsOfParts(p.parts);
      if p.absolute {
        SplitPrefix("", '/', j);
        assert s == "" + ['/'] + j;
        assert KeepParts(Split(s, '/')) == KeepParts(Split(j, '/'));
      } else {
        JoinWithStartsWithFirst(p.parts, '/');
        assert s == j;
        assert IsPart(p.parts[0]);
        assert s[0] == p.parts[0][0] && p.parts[0][0] != '/';
      }
    }
  }

  /** parent / child: an absolute child replaces the parent, otherwise the components
      are appended. */
  function Join(parent: Path, child: Path): (r: Path)
    requires Valid(parent) && Valid(child)
    ensures Valid(r)
  {
    if child.absolute then child else Path(parent.absolute, parent.parts + child.parts)
  }

  /** p is root or lies below it. */
  predicate Under(p: Path, root: Path)
  {
    p.absolute == root.absolute && |root.parts| <= |p.parts| && p.parts[..|root.parts|] == root.parts
  }

  /** p.relative_to(root): the components of p after those of root, or ValueError when
      p does not lie below root. */
  function RelativeTo(p: Path, root: Path): (r: Result<Path>)
    requires Valid(p)
    ensures r.Ok? <==> Under(p, root)
    ensures r.Ok? ==> Valid(r.value) && !r.value.absolute
    ensures r.Err? ==> r.error.ValueError?
  {
    if Under(p, root) then Ok(Path(false, p.parts[|root.parts|..]))
    else Err(ValueError("'" + Str(p) + "' is not in the subpath of '" + Str(root) + "'"))
  }

  /** Joining the relative remainder back onto the root gives the original path. */
  lemma JoinRelativeTo(p: Path, root: Path)
    requires Valid(p) && Valid(root) && Under(p, root)
    ensures Join(root, RelativeTo(p, root).value) == p
  {
    assert root.parts + p.parts[|root.parts|..] == p.parts;
  }

  /** A relative path joined onto a root is below that root, with itself as remainder. */
  lemma RelativeToJoin(root: Path, rel: Path)
    requires Valid(root) && Valid(rel) && !rel.absolute
    ensures RelativeTo(Join(root, rel), root) == Ok(rel)
  {
    var j := Join(root, rel);
    assert j.parts[..|root.parts|] == root.parts;
    assert j.parts[|root.parts|..] == rel.parts;
  }
}
