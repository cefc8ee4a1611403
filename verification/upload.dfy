/** The upload filter of `POST /api/materials`. */
module Upload {
  import opened Strings

  /** The alternatives of the filter's regular expression, in its order. */
  const AllowedTypes: seq<string> := ["jpeg", "jpg", "png", "gif", "pdf", "doc", "docx", "ppt", "pptx", "mp4", "avi", "mov"]

  ghost predicate OccursAt(t: string, s: string, i: int)
  {
    0 <= i <= |s| - |t| && s[i..i + |t|] == t
  }

  ghost predicate IsInfix(t: string, s: string)
  {
    exists i :: OccursAt(t, s, i)
  }

  /** What an unanchored pattern of alternatives means: one of them occurs somewhere in `s`. */
  ghost predicate Mentions(alternatives: seq<string>, s: string)
  {
    exists t :: t in alternatives && IsInfix(t, s)
  }

  ghost predicate MentionsAllowedType(s: string)
  {
    Mentions(AllowedTypes, s)
  }

  /** `pattern.test(s)` for a pattern of alternatives: try each start position in turn, and at each every alternative. */
  predicate PatternTest(alternatives: seq<string>, s: string)
  {
    (exists t :: t in alternatives && t <= s) || (s != [] && PatternTest(alternatives, s[1..]))
  }

  /** The scan finds a match exactly when some alternative occurs in `s`. */
  lemma {:induction false} PatternTestFindsInfix(alternatives: seq<string>, s: string)
    ensures PatternTest(alternatives, s) <==> Mentions(alternatives, s)
  {
    if s != [] {
      PatternTestFindsInfix(alternatives, s[1..]);
    }
    if PatternTest(alternatives, s) {
      if t :| t in alternatives && t <= s {
        assert s[0..|t|] == t;
        assert OccursAt(t, s, 0);
      } else {
        var t :| t in alternatives && IsInfix(t, s[1..]);
        var i :| OccursAt(t, s[1..], i);
        assert s[i + 1..i + 1 + |t|] == t;
        assert OccursAt(t, s, i + 1);
      }
    }
    if Mentions(alternatives, s) {
      var t :| t in alternatives && IsInfix(t, s);
      var i :| OccursAt(t, s, i);
      if i == 0 {
        assert t <= s;
      } else {
        assert s[1..][i - 1..i - 1 + |t|] == t;
        assert OccursAt(t, s[1..], i - 1);
      }
    }
  }

  /** The length of `s` without its trailing slashes. */
  function TrimmedEnd(s: string, n: nat): (end: nat)
    requires n <= |s|
    ensures end <= n
    ensures end == 0 || s[end - 1] != '/'
    ensures forall j :: end <= j < n ==> s[j] == '/'
  {
    if n > 0 && s[n - 1] == '/' then TrimmedEnd(s, n - 1) else n
  }

  /** `s.lastIndexOf(c, n - 1)`: the last position of `c` before `n`, or -1. */
  function LastIndexBefore(s: string, c: char, n: nat): (k: int)
    requires n <= |s|
    ensures -1 <= k < n
    ensures k >= 0 ==> s[k] == c
    ensures forall j :: k < j < n ==> s[j] != c
  {
    if n == 0 then -1
    else if s[n - 1] == c then n - 1
    else LastIndexBefore(s, c, n - 1)
  }

  /**
   * `path.extname` (POSIX): in the last component, trailing slashes ignored,
   * the text from the last dot on; empty when there is no dot, when the last
   * dot is the component's first character (a name like `.pdf`), or when the
   * component is `..`.
   */
  function Extname(path: string): (ext: string)
    ensures ext == [] || ext[0] == '.'
    ensures forall j :: 0 < j < |ext| ==> ext[j] != '.' && ext[j] != '/'
  {
    var end := TrimmedEnd(path, |path|);
    var start := LastIndexBefore(path, '/', end) + 1;
    var dot := LastIndexBefore(path, '.', end);
    if dot <= start || (end - start == 2 && path[start] == '.' && path[start + 1] == '.') then []
    else path[dot..end]
  }

  /** A plain file name `stem.e` has the extension `.e`. */
  lemma ExtnameOfFileName(stem: string, e: string)
    requires stem != [] && '/' !in stem && '/' !in e && '.' !in e
    requires stem + "." + e != ".."
    ensures Extname(stem + "." + e) == "." + e
  {
    var name := stem + "." + e;
    assert name[|name| - 1] != '/' by {
      if e == [] { assert name[|name| - 1] == '.'; } else { assert name[|name| - 1] == e[|e| - 1]; }
    }
    assert TrimmedEnd(name, |name|) == |name|;
    assert forall j :: 0 <= j < |name| ==> name[j] != '/' by {
      forall j | 0 <= j < |name| ensures name[j] != '/' {
        if j < |stem| { assert name[j] == stem[j]; }
        else if j > |stem| { assert name[j] == e[j - |stem| - 1]; }
      }
    }
    var slash := LastIndexBefore(name, '/', |name|);
    assert slash == -1;
    assert name[|stem|] == '.';
    assert forall j :: |stem| < j < |name| ==> name[j] == e[j - |stem| - 1];
    var dot := LastIndexBefore(name, '.', |name|);
    assert dot == |stem|;
    assert name[|stem|..|name|] == "." + e;
  }

  /**
   * The multer `fileFilter`: an upload passes exactly when both the
   * lower-cased extension of the client's file name and the declared MIME
   * type contain one of the alternatives, anywhere.
   */
  function FileAllowed(originalName: string, mimetype: string): (ok: bool)
    ensures ok <==> MentionsAllowedType(Lower(Extname(originalName))) && MentionsAllowedType(mimetype)
  {
    PatternTestFindsInfix(AllowedTypes, Lower(Extname(originalName)));
    PatternTestFindsInfix(AllowedTypes, mimetype);
    PatternTest(AllowedTypes, Lower(Extname(originalName))) && PatternTest(AllowedTypes, mimetype)
  }

  /** The alternatives contain no upper-case letter, so lower-casing leaves them as they are. */
  lemma AllowedTypesAreLowerCase(t: string)
    requires t in AllowedTypes
    ensures forall k :: 0 <= k < |t| ==> LowerChar(t[k]) == t[k]
    ensures '.' !in t && '/' !in t
  {
  }

  /** The pattern is not anchored: any extension that contains an alternative passes, whatever follows it. */
  lemma UnanchoredExtensionPasses(stem: string, t: string, suffix: string, mimetype: string)
    requires t in AllowedTypes
    requires stem != [] && '/' !in stem && '/' !in suffix && '.' !in suffix
    requires MentionsAllowedType(mimetype)
    ensures FileAllowed(stem + "." + t + suffix, mimetype)
  {
    AllowedTypesAreLowerCase(t);
    var e := t + suffix;
    assert stem + "." + t + suffix == stem + "." + e;
    ExtnameOfFileName(stem, e);
    var lower := Lower("." + e);
    assert forall k :: 0 <= k < |t| ==> ("." + e)[1 + k] == t[k];
    assert lower[1..1 + |t|] == t;
    assert OccursAt(t, lower, 1);
  }

  /** A name without any dot has no extension. */
  lemma NoDotNoExtension(name: string)
    requires '.' !in name
    ensures Extname(name) == []
  {
    var end := TrimmedEnd(name, |name|);
    assert LastIndexBefore(name, '.', end) == -1;
  }

  /** A slash-free name whose only dot is its first character, such as `.pdf`, has no extension. */
  lemma LeadingDotOnly(e: string)
    requires '.' !in e && '/' !in e
    ensures Extname("." + e) == []
  {
    var name := "." + e;
    assert forall j :: 1 <= j < |name| ==> name[j] == e[j - 1] && e[j - 1] in e;
    assert forall j :: 1 <= j < |name| ==> name[j] != '.';
    assert name[0] == '.' && name[|name| - 1] != '/';
    assert TrimmedEnd(name, |name|) == |name|;
    assert LastIndexBefore(name, '/', |name|) == -1;
    assert LastIndexBefore(name, '.', |name|) == 0;
  }

  /** Without an extension, no MIME type lets an upload through. */
  lemma NoExtensionRefused(name: string, mimetype: string)
    requires Extname(name) == []
    ensures !FileAllowed(name, mimetype)
  {
    assert Lower([]) == [];
    assert !PatternTest(AllowedTypes, []);
  }

  /** An upload named without a dot, such as `report`, is refused whatever its MIME type. */
  lemma NoDotRefused(name: string, mimetype: string)
    requires '.' !in name
    ensures !FileAllowed(name, mimetype)
  {
    NoDotNoExtension(name);
    NoExtensionRefused(name, mimetype);
  }

  /** An upload whose only dot leads its name, even `.pdf`, is refused whatever its MIME type. */
  lemma LeadingDotRefused(e: string, mimetype: string)
    requires '.' !in e && '/' !in e
    ensures !FileAllowed("." + e, mimetype)
  {
    LeadingDotOnly(e);
    NoExtensionRefused("." + e, mimetype);
  }
}
