/**
 * Deriving a safe stored name from an untrusted client file name, and
 * resolving collisions with names already present in the upload directory.
 *
 * The client name loses its final extension (as `os.path.splitext` removes
 * it), spaces become underscores, every character other than an ASCII letter,
 * digit, `_` or `-` is dropped, and an empty result becomes "file". The stored
 * name is then the first of `base + ext`, `base-1 + ext`, `base-2 + ext`, ...
 * that is not yet taken.
 */
module SafeFilename {
  import opened Strings

  // ---------------------------------------------------------------------------
  // os.path.splitext (POSIX flavour), root part
  // ---------------------------------------------------------------------------

  predicate HasNonDot(p: string, lo: int, hi: int)
    requires 0 <= lo <= hi <= |p|
  {
    exists k :: lo <= k < hi && p[k] != '.'
  }

  /**
   * The independent description of "p has an extension": inside the final
   * path segment there is a dot with some character other than a dot before
   * it. Leading dots of a segment (".png", "..cfg") are not an extension.
   */
  predicate HasExtension(p: string) {
    var sep := LastIndexOf(p, '/');
    exists d :: sep < d < |p| && p[d] == '.' && HasNonDot(p, sep + 1, d)
  }

  /**
   * The root that `os.path.splitext(p)` returns. When something is removed,
   * it is the part from the last dot on, which holds no further dot and no
   * slash.
   */
  function StripExt(p: string): (root: string)
    ensures root <= p
    ensures root != p ==>
      p[|root|] == '.' && forall k :: |root| < k < |p| ==> p[k] != '.' && p[k] != '/'
  {
    var sep := LastIndexOf(p, '/');
    var dot := LastIndexOf(p, '.');
    if dot > sep && HasNonDot(p, sep + 1, dot) then p[..dot] else p
  }

  /** StripExt removes something exactly when the name has an extension. */
  lemma StripExtChanges(p: string)
    ensures StripExt(p) != p <==> HasExtension(p)
  {
    var sep := LastIndexOf(p, '/');
    var dot := LastIndexOf(p, '.');
    if HasExtension(p) {
      var d :| sep < d < |p| && p[d] == '.' && HasNonDot(p, sep + 1, d);
      assert d <= dot;
      var k :| sep + 1 <= k < d && p[k] != '.';
      assert HasNonDot(p, sep + 1, dot);
      assert |StripExt(p)| == dot;
    }
    if StripExt(p) != p {
      assert p[dot] == '.' && HasNonDot(p, sep + 1, dot);
    }
  }

  /** After appending a dot-led extension, the last dot is the extension's and the last slash is the root's. */
  lemma ExtensionSeparators(root: string, ext: string)
    requires |ext| >= 1 && ext[0] == '.'
    requires forall k :: 1 <= k < |ext| ==> ext[k] != '.' && ext[k] != '/'
    ensures LastIndexOf(root + ext, '.') == |root|
    ensures LastIndexOf(root + ext, '/') == LastIndexOf(root, '/')
  {
    var rest := ext[1..];
    assert ext == "." + rest;
    assert root + ext == (root + ".") + rest;
    LastIndexOfAppend(root + ".", rest, '.');
    LastIndexOfAppend(root + ".", rest, '/');
    LastIndexOfAppend(root, ".", '/');
  }

  /** Appending an extension to a root that has a real final segment and stripping it gives the root back. */
  lemma StripExtAppended(root: string, ext: string)
    requires |ext| >= 1 && ext[0] == '.'
    requires forall k :: 1 <= k < |ext| ==> ext[k] != '.' && ext[k] != '/'
    requires HasNonDot(root, LastIndexOf(root, '/') + 1, |root|)
    ensures StripExt(root + ext) == root
  {
    var p := root + ext;
    ExtensionSeparators(root, ext);
    var sep := LastIndexOf(root, '/');
    var k :| sep + 1 <= k < |root| && root[k] != '.';
    assert p[k] == root[k];
    assert p[..|root|] == root;
  }

  /** A name whose final segment holds no dot keeps its whole text as root. */
  lemma StripExtNoDot(p: string)
    requires forall k :: LastIndexOf(p, '/') < k < |p| ==> p[k] != '.'
    ensures StripExt(p) == p
  {
  }

  // ---------------------------------------------------------------------------
  // Sanitising the base
  // ---------------------------------------------------------------------------

  /** ASCII stand-in for `str.isalnum`. */
  predicate IsAlnum(c: char) {
    ('a' <= c <= 'z') || ('A' <= c <= 'Z') || ('0' <= c <= '9')
  }

  /** A character that survives sanitising. */
  predicate SafeChar(c: char) {
    IsAlnum(c) || c == '_' || c == '-'
  }

  predicate AllSafe(s: string) {
    forall k :: 0 <= k < |s| ==> SafeChar(s[k])
  }

  /** Nothing in s would survive sanitising: no safe character and no space. */
  predicate NothingKept(s: string) {
    forall k :: 0 <= k < |s| ==> !SafeChar(s[k]) && s[k] != ' '
  }

  /** s with every space turned into an underscore. */
  function ReplaceSpaces(s: string): (r: string)
    ensures |r| == |s|
    ensures forall k :: 0 <= k < |s| ==> r[k] == if s[k] == ' ' then '_' else s[k]
  {
    if s == [] then [] else [if s[0] == ' ' then '_' else s[0]] + ReplaceSpaces(s[1..])
  }

  /** The safe characters of s, in their original order. */
  function KeepSafe(s: string): (r: string)
    ensures |r| <= |s|
    ensures AllSafe(r)
    ensures AllSafe(s) ==> r == s
    ensures r == [] <==> forall k :: 0 <= k < |s| ==> !SafeChar(s[k])
  {
    if s == [] then []
    else
      var rest := KeepSafe(s[1..]);
      assert forall k :: 1 <= k < |s| ==> s[k] == s[1..][k - 1];
      if SafeChar(s[0]) then [s[0]] + rest else rest
  }

  /** One character on its own: kept when safe, dropped otherwise. */
  lemma KeepSafeChar(c: char)
    ensures KeepSafe([c]) == if SafeChar(c) then [c] else []
  {
    assert [c][1..] == [];
  }

  /** Filtering a text that starts with c: c if it is safe, then the filtered rest. */
  lemma KeepSafeCons(c: char, s: string)
    ensures KeepSafe([c] + s) == (if SafeChar(c) then [c] else []) + KeepSafe(s)
  {
    assert ([c] + s)[0] == c && ([c] + s)[1..] == s;
  }

  /** KeepSafe works character by character: filtering a concatenation filters each part. */
  lemma {:induction false} KeepSafeAppend(a: string, b: string)
    ensures KeepSafe(a + b) == KeepSafe(a) + KeepSafe(b)
  {
    if a == [] {
      assert a + b == b;
    } else {
      var c, rest := a[0], a[1..];
      var head := if SafeChar(c) then [c] else [];
      assert a == [c] + rest;
      assert a + b == [c] + (rest + b);
      KeepSafeCons(c, rest);
      KeepSafeCons(c, rest + b);
      KeepSafeAppend(rest, b);
      AppendAssoc(head, KeepSafe(rest), KeepSafe(b));
    }
  }

  lemma AppendAssoc(x: string, y: string, z: string)
    ensures x + (y + z) == (x + y) + z
  {
  }

  /** ReplaceSpaces works character by character as well. */
  lemma ReplaceSpacesAppend(a: string, b: string)
    ensures ReplaceSpaces(a + b) == ReplaceSpaces(a) + ReplaceSpaces(b)
  {
    var l, r := ReplaceSpaces(a + b), ReplaceSpaces(a) + ReplaceSpaces(b);
    forall k | 0 <= k < |l|
      ensures l[k] == r[k]
    {
      if k < |a| {
        assert (a + b)[k] == a[k];
      } else {
        assert (a + b)[k] == b[k - |a|];
      }
    }
  }

  /**
   * What survives of a root: its spaces as `_`, its letters, digits, `_` and
   * `-`, in their original order; nothing else. Empty exactly when the root
   * holds no character that is safe or a space.
   */
  function Sanitise(s: string): (r: string)
    ensures AllSafe(r)
    ensures r == [] <==> NothingKept(s)
  {
    var replaced := ReplaceSpaces(s);
    assert forall k :: 0 <= k < |s| ==> (SafeChar(replaced[k]) <==> SafeChar(s[k]) || s[k] == ' ');
    KeepSafe(replaced)
  }

  /** Sanitising one character: a space becomes `_`, a safe character stays, any other is dropped. */
  lemma SanitiseChar(c: char)
    ensures Sanitise([c]) == if c == ' ' then "_" else if SafeChar(c) then [c] else []
  {
    assert ReplaceSpaces([c]) == [if c == ' ' then '_' else c];
    KeepSafeChar(if c == ' ' then '_' else c);
  }

  /** Sanitising a concatenation sanitises each part: characters are kept or dropped in place, in order. */
  lemma SanitiseAppend(a: string, b: string)
    ensures Sanitise(a + b) == Sanitise(a) + Sanitise(b)
  {
    ReplaceSpacesAppend(a, b);
    KeepSafeAppend(ReplaceSpaces(a), ReplaceSpaces(b));
  }

  /** A text of safe characters and spaces loses nothing: only its spaces change, to `_`. */
  lemma SanitiseSafeOrSpace(s: string)
    requires forall k :: 0 <= k < |s| ==> SafeChar(s[k]) || s[k] == ' '
    ensures Sanitise(s) == ReplaceSpaces(s)
  {
    assert AllSafe(ReplaceSpaces(s));
  }

  /** A safe text loses nothing to sanitising. */
  lemma SanitiseSafe(s: string)
    requires AllSafe(s)
    ensures Sanitise(s) == s
  {
    SanitiseSafeOrSpace(s);
    assert ReplaceSpaces(s) == s;
  }

  /**
   * Two safe words around a space, followed by characters that are neither
   * safe nor spaces: the space becomes `_` and the tail is dropped.
   */
  lemma SanitiseWordsAndTail(a: string, b: string, tail: string)
    requires AllSafe(a) && AllSafe(b) && NothingKept(tail)
    ensures Sanitise(a + " " + b + tail) == a + "_" + b
  {
    SanitiseAppend(a + " " + b, tail);
    SanitiseAppend(a + " ", b);
    SanitiseAppend(a, " ");
    SanitiseChar(' ');
    SanitiseSafe(a);
    SanitiseSafe(b);
  }

  /**
   * The sanitised base of a client file name: the sanitised root of the
   * name, or "file" when nothing of the root survives. Never empty, and only
   * safe characters.
   */
  function SafeBase(filename: string): (base: string)
    ensures base != []
    ensures forall k :: 0 <= k < |base| ==> SafeChar(base[k])
    ensures NothingKept(StripExt(filename)) ==> base == "file"
    ensures !NothingKept(StripExt(filename)) ==> base == Sanitise(StripExt(filename))
  {
    var kept := Sanitise(StripExt(filename));
    if kept == [] then "file" else kept
  }

  /** When the root holds only safe characters and spaces, every space reappears as `_` and nothing is dropped. */
  lemma SpacesBecomeUnderscores(filename: string)
    requires StripExt(filename) != []
    requires forall k :: 0 <= k < |StripExt(filename)| ==>
      SafeChar(StripExt(filename)[k]) || StripExt(filename)[k] == ' '
    ensures |SafeBase(filename)| == |StripExt(filename)|
    ensures forall k :: 0 <= k < |SafeBase(filename)| ==>
      SafeBase(filename)[k] == if StripExt(filename)[k] == ' ' then '_' else StripExt(filename)[k]
  {
    SanitiseSafeOrSpace(StripExt(filename));
  }

  /** Sanitising an already sanitised base changes nothing. */
  lemma SafeBaseIdempotent(filename: string)
    ensures SafeBase(SafeBase(filename)) == SafeBase(filename)
  {
    var base := SafeBase(filename);
    StripExtNoDot(base);
    assert ReplaceSpaces(base) == base;
  }

  // ---------------------------------------------------------------------------
  // Candidate names and collision resolution
  // ---------------------------------------------------------------------------

  /** The i-th candidate: `base + ext` for 0, `base + "-" + str(i) + ext` after that. */
  function Candidate(base: string, i: nat, ext: string): (c: string)
    ensures base <= c && EndsWith(c, ext)
    ensures |c| == |base| + |ext| <==> i == 0
  {
    base + (if i == 0 then "" else "-" + Decimal(i)) + ext
  }

  /** Different indices give different candidates. */
  lemma CandidateInjective(base: string, ext: string, i: nat, j: nat)
    requires Candidate(base, i, ext) == Candidate(base, j, ext)
    ensures i == j
  {
    var x := if i == 0 then "" else "-" + Decimal(i);
    var y := if j == 0 then "" else "-" + Decimal(j);
    var c := Candidate(base, i, ext);
    assert |x| == |y|;
    assert x == c[|base|..|base| + |x|];
    assert y == c[|base|..|base| + |y|];
    if i != 0 && j != 0 {
      assert Decimal(i) == x[1..] == y[1..] == Decimal(j);
      DecimalInjective(i, j);
    }
  }

  /** If the first n candidates are all taken, at least n names are taken. */
  lemma {:induction false} CandidatesBound(taken: set<string>, base: string, ext: string, n: nat)
    requires forall j :: 0 <= j < n ==> Candidate(base, j, ext) in taken
    ensures n <= |taken|
  {
    if n > 0 {
      var last := Candidate(base, n - 1, ext);
      var rest := taken - {last};
      forall j | 0 <= j < n - 1
        ensures Candidate(base, j, ext) in rest
      {
        if Candidate(base, j, ext) == last {
          CandidateInjective(base, ext, j, n - 1);
        }
      }
      CandidatesBound(rest, base, ext, n - 1);
    }
  }

  /** The smallest free index at or after i, given that all indices below i are taken. */
  function FirstFreeFrom(taken: set<string>, base: string, ext: string, i: nat): (r: nat)
    requires forall j :: 0 <= j < i ==> Candidate(base, j, ext) in taken
    ensures i <= r
    ensures Candidate(base, r, ext) !in taken
    ensures forall j :: 0 <= j < r ==> Candidate(base, j, ext) in taken
    decreases |taken| - i
  {
    if Candidate(base, i, ext) !in taken then i
    else
      CandidatesBound(taken, base, ext, i + 1);
      FirstFreeFrom(taken, base, ext, i + 1)
  }

  /** The smallest index whose candidate is free. */
  function FirstFree(taken: set<string>, base: string, ext: string): (r: nat)
    ensures Candidate(base, r, ext) !in taken
    ensures forall j :: 0 <= j < r ==> Candidate(base, j, ext) in taken
  {
    FirstFreeFrom(taken, base, ext, 0)
  }

  /**
   * name is a candidate for base and ext such that every earlier candidate is
   * taken: what the collision loop stops at, stated without the loop.
   */
  ghost predicate FirstFreeName(name: string, base: string, ext: string, taken: set<string>) {
    exists i: nat :: name == Candidate(base, i, ext) && forall j :: 0 <= j < i ==> Candidate(base, j, ext) in taken
  }

  /** Any free index whose predecessors are all taken is the one FirstFree picks. */
  lemma FirstFreeUnique(taken: set<string>, base: string, ext: string, i: nat)
    requires Candidate(base, i, ext) !in taken
    requires forall j :: 0 <= j < i ==> Candidate(base, j, ext) in taken
    ensures FirstFree(taken, base, ext) == i
  {
  }

  /** A free name whose earlier candidates are all taken is the one FirstFree picks. */
  lemma FirstFreeNameUnique(name: string, base: string, ext: string, taken: set<string>)
    requires FirstFreeName(name, base, ext, taken) && name !in taken
    ensures name == Candidate(base, FirstFree(taken, base, ext), ext)
  {
    var i: nat :| name == Candidate(base, i, ext) && forall j :: 0 <= j < i ==> Candidate(base, j, ext) in taken;
    FirstFreeUnique(taken, base, ext, i);
  }

  /** With nothing taken, the plain `base + ext` is chosen. */
  lemma NothingTakenPlain(base: string, ext: string)
    ensures Candidate(base, FirstFree({}, base, ext), ext) == base + ext
  {
    FirstFreeUnique({}, base, ext, 0);
    assert Candidate(base, 0, ext) == base + ext;
  }

  /**
   * The collision loop: tries candidates 0, 1, 2, ... and stops at the first
   * one not taken. It always stops, after at most |taken| + 1 tries.
   */
  method ResolveName(taken: set<string>, base: string, ext: string) returns (name: string)
    ensures name !in taken
    ensures name == Candidate(base, FirstFree(taken, base, ext), ext)
  {
    var i := 0;
    name := Candidate(base, i, ext);
    while name in taken
      invariant name == Candidate(base, i, ext)
      invariant forall j :: 0 <= j < i ==> Candidate(base, j, ext) in taken
      decreases |taken| - i
    {
      CandidatesBound(taken, base, ext, i + 1);
      i := i + 1;
      name := Candidate(base, i, ext);
    }
    FirstFreeUnique(taken, base, ext, i);
  }

  /** With `base + ext` taken and `base-1 + ext` free, the resolved name ends in "-1". */
  lemma SecondCopyGetsSuffixOne(taken: set<string>, base: string, ext: string)
    requires base + ext in taken
    requires base + "-1" + ext !in taken
    ensures Candidate(base, FirstFree(taken, base, ext), ext) == base + "-1" + ext
  {
    assert Decimal(1) == "1";
    assert Candidate(base, 0, ext) == base + ext;
    assert Candidate(base, 1, ext) == base + "-1" + ext;
    FirstFreeUnique(taken, base, ext, 1);
  }

  /** A name with no safe character falls back to "file". */
  lemma FallbackExample()
    ensures SafeBase("???.png") == "file"
  {
    var root := "???";
    assert forall k :: 0 <= k < |root| ==> root[k] != '/';
    assert LastIndexOf(root, '/') == -1;
    assert root[0] != '.';
    StripExtAppended(root, ".png");
    assert root + ".png" == "???.png";
    assert NothingKept(root);
  }

  /** Spaces become underscores and other unsafe characters are dropped in place: "My Photo!!.png" gets the base "My_Photo". */
  lemma MixedRootExample()
    ensures SafeBase("My Photo!!.png") == "My_Photo"
  {
    PhotoRoot();
    var a, b, tail := "My", "Photo", "!!";
    SanitiseWordsAndTail(a, b, tail);
    assert a + "_" + b == "My_Photo";
  }

  /** The root of "My Photo!!.png" is "My Photo!!", split here into its words and its tail. */
  lemma PhotoRoot()
    ensures StripExt("My Photo!!.png") == "My" + " " + "Photo" + "!!"
  {
    var root := "My Photo!!";
    assert forall k :: 0 <= k < |root| ==> root[k] != '/';
    assert LastIndexOf(root, '/') == -1;
    assert root[0] != '.';
    StripExtAppended(root, ".png");
    assert root + ".png" == "My Photo!!.png";
    assert root == "My" + " " + "Photo" + "!!";
  }
}
