/** The apport package hook for grub2 (debian/apport/source_grub2.py).

    The hook redacts password lines from the primary configuration file,
    syntax-checks the configuration file and the executable drop-in scripts,
    and records the failures in the bug report, a dictionary from key to text.
    Everything the hook asks of the host (the file system, the executable bit,
    the shell's syntax check, apport's key derivation and what apport's
    attach_file stores) is an input: a Host. */
module Apport {
  import opened Wrappers

  /** Replacement for a redacted line; it carries no line terminator. */
  const Marker: string := "### PASSWORD LINE REMOVED ###"
  const Password: string := "password"
  const DefaultGrub: string := "/etc/default/grub"
  const GrubDir: string := "/etc/grub.d"
  const ProcCmdLine: string := "/proc/cmdline"
  const Readme: string := "README"
  const ProblemTypeKey: string := "ProblemType"
  const InvalidKey: string := "InvalidGrubScript"

  /** What the hook observes of the machine it runs on. */
  datatype Host = Host(
    files: map<string, string>,     // existing files and their text
    executable: set<string>,        // paths that os.access(path, X_OK) accepts
    listing: seq<string>,           // os.listdir of the drop-in directory, in its order
    syntaxOk: set<string>,          // paths that `/bin/sh -n` accepts
    pathToKey: string -> string,    // apport's path_to_key
    attachFile: string -> Option<string>)  // what apport's attach_file stores for a path, if anything

  /** str.startswith('password'): case-sensitive, anchored at column 0. */
  predicate StartsWithPassword(l: string) {
    |l| >= |Password| && l[..|Password|] == Password
  }

  predicate NoNewline(s: string) {
    forall i :: 0 <= i < |s| ==> s[i] != '\n'
  }

  /** A line as readlines() yields it: not empty, and its only newline, if
      any, is its last character. */
  predicate IsLine(l: string) {
    l != [] && NoNewline(l[..|l| - 1])
  }

  // ---------------------------------------------------------------------
  // Reading a file line by line

  /** Length of the first line of s, its terminating newline included. */
  function LineLength(s: string): (k: nat)
    requires s != []
    ensures 0 < k <= |s|
    ensures NoNewline(s[..k - 1])
    ensures k < |s| ==> s[k - 1] == '\n'
  {
    if s[0] == '\n' || |s| == 1 then 1
    else
      var k' := LineLength(s[1..]);
      assert s[..k'] == [s[0]] + s[1..][..k' - 1];
      1 + k'
  }

  /** file.readlines(): the text cut after every newline. */
  function ReadLines(s: string): seq<string>
    decreases |s|
  {
    if s == [] then [] else [s[..LineLength(s)]] + ReadLines(s[LineLength(s)..])
  }

  /** ''.join(lines) */
  function Concat(ls: seq<string>): string {
    if ls == [] then [] else ls[0] + Concat(ls[1..])
  }

  /** The list comprehension of _attach_file_filtered, one line at a time. */
  function Redact(lines: seq<string>): (r: seq<string>)
    ensures |r| == |lines|
    ensures forall i :: 0 <= i < |lines| && !StartsWithPassword(lines[i]) ==> r[i] == lines[i]
    ensures forall i :: 0 <= i < |lines| && StartsWithPassword(lines[i]) ==> r[i] == Marker
  {
    if lines == [] then []
    else [if StartsWithPassword(lines[0]) then Marker else lines[0]] + Redact(lines[1..])
  }

  /** The text _attach_file_filtered stores for a file whose text is s. */
  function Filtered(s: string): string {
    Concat(Redact(ReadLines(s)))
  }

  /** No line of the text starts with 'password'. */
  predicate NoPasswordLine(t: string) {
    var ls := ReadLines(t);
    forall i :: 0 <= i < |ls| ==> !StartsWithPassword(ls[i])
  }

  // ---------------------------------------------------------------------
  // Properties of the filter

  /** Every line readlines() yields is a line, and they are not empty. */
  lemma {:induction false} ReadLinesAreLines(s: string)
    ensures forall i :: 0 <= i < |ReadLines(s)| ==> IsLine(ReadLines(s)[i])
    decreases |s|
  {
    if s != [] {
      var k := LineLength(s);
      ReadLinesAreLines(s[k..]);
      assert s[..k][..k - 1] == s[..k - 1];
    }
  }

  /** Joining the lines gives the text back. */
  lemma {:induction false} ReadLinesConcat(s: string)
    ensures Concat(ReadLines(s)) == s
    decreases |s|
  {
    if s != [] {
      var k := LineLength(s);
      var rest := ReadLines(s[k..]);
      ReadLinesConcat(s[k..]);
      ConcatCons(s[..k], rest);
      assert s == s[..k] + s[k..];
    }
  }

  lemma ConcatCons(l: string, ls: seq<string>)
    ensures Concat([l] + ls) == l + Concat(ls)
  {
    assert ([l] + ls)[1..] == ls;
  }

  lemma {:induction false} ConcatAppend(a: seq<string>, b: seq<string>)
    ensures Concat(a + b) == Concat(a) + Concat(b)
  {
    if a != [] {
      assert (a + b)[0] == a[0];
      assert (a + b)[1..] == a[1..] + b;
      ConcatAppend(a[1..], b);
      assert a[0] + (Concat(a[1..]) + Concat(b)) == (a[0] + Concat(a[1..])) + Concat(b);
    } else {
      assert a + b == b;
    }
  }

  lemma NoNewlineTail(s: string)
    requires NoNewline(s) && s != []
    ensures NoNewline(s[1..])
  {
    forall i | 0 <= i < |s| - 1 ensures s[1..][i] != '\n' {
      assert s[1..][i] == s[i + 1];
    }
  }

  /** A text that starts with a complete line: readlines() yields that line first. */
  lemma {:induction false} LineLengthOfLine(l: string, x: string)
    requires IsLine(l) && (l[|l| - 1] == '\n' || x == [])
    ensures LineLength(l + x) == |l|
    decreases |l|
  {
    if |l| > 1 {
      assert l[0] == l[..|l| - 1][0];
      assert (l + x)[1..] == l[1..] + x;
      assert l[1..][..|l| - 2] == l[..|l| - 1][1..];
      NoNewlineTail(l[..|l| - 1]);
      LineLengthOfLine(l[1..], x);
      assert LineLength(l + x) == 1 + LineLength(l[1..] + x);
    }
  }

  /** A prefix without newlines extends the first line of what follows it. */
  lemma {:induction false} LineLengthAfterPrefix(m: string, x: string)
    requires NoNewline(m) && x != []
    ensures LineLength(m + x) == |m| + LineLength(x)
    decreases |m|
  {
    if m != [] {
      assert (m + x)[0] == m[0];
      assert (m + x)[1..] == m[1..] + x;
      NoNewlineTail(m);
      LineLengthAfterPrefix(m[1..], x);
      assert LineLength(m + x) == 1 + LineLength(m[1..] + x);
    } else {
      assert m + x == x;
    }
  }

  /** The filtered text of s is the first line's replacement followed by the
      filtered rest. */
  lemma FilteredUnfold(s: string)
    requires s != []
    ensures var k := LineLength(s);
      Filtered(s) == (if StartsWithPassword(s[..k]) then Marker else s[..k]) + Filtered(s[k..])
  {
    var k := LineLength(s);
    var ls := ReadLines(s);
    assert ls[0] == s[..k] && ls[1..] == ReadLines(s[k..]);
    assert Redact(ls)[1..] == Redact(ls[1..]);
  }

  /** Lines of a text behind a prefix without newlines: the prefix joins
      the first line. */
  lemma ReadLinesAfterPrefix(m: string, x: string)
    requires NoNewline(m) && m != []
    ensures x == [] ==> ReadLines(m + x) == [m]
    ensures x != [] ==> ReadLines(m + x) == [m + ReadLines(x)[0]] + ReadLines(x)[1..]
  {
    if x == [] {
      assert m + x == m;
      LineLengthAfterPrefixEnd(m);
      assert m[|m|..] == [];
    } else {
      ReadLinesJoinFirst(m, x);
    }
  }

  lemma ReadLinesJoinFirst(m: string, x: string)
    requires NoNewline(m) && m != [] && x != []
    ensures ReadLines(m + x) == [m + ReadLines(x)[0]] + ReadLines(x)[1..]
  {
    var t := m + x;
    LineLengthAfterPrefix(m, x);
    var kx := LineLength(x);
    assert t[|m| + kx..] == x[kx..];
    assert t[..|m| + kx] == m + x[..kx];
    assert ReadLines(t) == [t[..|m| + kx]] + ReadLines(t[|m| + kx..]);
    assert ReadLines(x) == [x[..kx]] + ReadLines(x[kx..]);
  }

  /** A prefix without newlines that cannot begin 'password', followed by a
      text without password lines, has none either. */
  lemma NoPasswordLineAfterPrefix(m: string, x: string)
    requires NoNewline(m) && m != [] && m[0] != 'p'
    requires NoPasswordLine(x)
    ensures NoPasswordLine(m + x)
  {
    ReadLinesAfterPrefix(m, x);
    var ls := ReadLines(m + x);
    assert ls[0][0] == m[0];
    assert Password[0] == 'p';
    assert !StartsWithPassword(ls[0]);
    if x != [] {
      var lx := ReadLines(x);
      forall i | 1 <= i < |ls| ensures !StartsWithPassword(ls[i]) {
        assert ls[i] == lx[i];
      }
    }
  }

  lemma LineLengthAfterPrefixEnd(m: string)
    requires NoNewline(m) && m != []
    ensures LineLength(m) == |m|
  {
    LineLengthOfLine(m, []);
    assert m + [] == m;
  }

  lemma MarkerFacts()
    ensures NoNewline(Marker) && Marker != [] && Marker[0] == '#'
  {
  }

  /** A complete line that does not start with 'password', followed by a
      text without password lines, has none either. */
  lemma NoPasswordLineAfterLine(l: string, x: string)
    requires IsLine(l) && (l[|l| - 1] == '\n' || x == []) && !StartsWithPassword(l)
    requires NoPasswordLine(x)
    ensures NoPasswordLine(l + x)
  {
    LineLengthOfLine(l, x);
    var t := l + x;
    assert t[..|l|] == l && t[|l|..] == x;
    assert ReadLines(t)[1..] == ReadLines(x);
    forall i | 1 <= i < |ReadLines(t)| ensures !StartsWithPassword(ReadLines(t)[i]) {
      assert ReadLines(t)[i] == ReadLines(x)[i - 1];
    }
  }

  /** Redaction leaves no line that starts with 'password'. */
  lemma {:induction false} FilteredHasNoPasswordLine(s: string)
    ensures NoPasswordLine(Filtered(s))
    decreases |s|
  {
    if s != [] {
      var k := LineLength(s);
      var l := s[..k];
      var x := Filtered(s[k..]);
      FilteredUnfold(s);
      FilteredHasNoPasswordLine(s[k..]);
      if StartsWithPassword(l) {
        MarkerFacts();
        NoPasswordLineAfterPrefix(Marker, x);
      } else {
        assert l[..|l| - 1] == s[..k - 1];
        if k == |s| {
          assert s[k..] == [];
        }
        NoPasswordLineAfterLine(l, x);
      }
    }
  }

  /** A text without password lines passes the filter unchanged. */
  lemma FilteredKeepsCleanText(t: string)
    requires NoPasswordLine(t)
    ensures Filtered(t) == t
  {
    var ls := ReadLines(t);
    assert Redact(ls) == ls;
    ReadLinesConcat(t);
  }

  /** Filtering twice is filtering once. */
  lemma FilteredIdempotent(s: string)
    ensures Filtered(Filtered(s)) == Filtered(s)
  {
    FilteredHasNoPasswordLine(s);
    FilteredKeepsCleanText(Filtered(s));
  }

  /** The redaction marker takes the place of the whole line, newline
      included, so it abuts the next line. */
  lemma MarkerAbutsNextLine(secret: string, rest: string)
    requires StartsWithPassword(secret) && NoNewline(secret)
    ensures Filtered(secret + "\n" + rest) == Marker + Filtered(rest)
  {
    var s := secret + "\n" + rest;
    var l := secret + "\n";
    assert l[..|l| - 1] == secret;
    assert s == l + rest;
    LineLengthOfLine(l, rest);
    FilteredUnfold(s);
    assert s[..|l|] == l && s[|l|..] == rest;
    assert l[..|Password|] == secret[..|Password|];
  }

  // ---------------------------------------------------------------------
  // The drop-in scripts that add_info checks

  function DropInPath(name: string): string {
    GrubDir + "/" + name
  }

  /** The filter on the directory listing: not README, executable, and
      rejected by the shell (the three tests of the `and`, in order). */
  predicate FailsCheck(host: Host, name: string) {
    name != Readme && DropInPath(name) in host.executable && DropInPath(name) !in host.syntaxOk
  }

  /** Full paths of the failing drop-ins, in listing order. */
  function FailingDropIns(host: Host, names: seq<string>): seq<string> {
    if names == [] then []
    else
      (if FailsCheck(host, names[0]) then [DropInPath(names[0])] else [])
      + FailingDropIns(host, names[1..])
  }

  /** The list add_info accumulates: the primary configuration file first. */
  function InvalidScripts(host: Host): seq<string> {
    (if DefaultGrub in host.syntaxOk then [] else [DefaultGrub])
    + FailingDropIns(host, host.listing)
  }

  /** ' '.join(paths) */
  function JoinSpace(paths: seq<string>): string {
    if paths == [] then ""
    else if |paths| == 1 then paths[0]
    else paths[0] + " " + JoinSpace(paths[1..])
  }

  /** The listing entries that fail, as a subsequence of the listing: the
      i-th failure is the entry at an index that grows with i. */
  lemma {:induction false} FailingDropInsExactly(host: Host, names: seq<string>)
    ensures forall i :: 0 <= i < |names| && FailsCheck(host, names[i]) ==>
      DropInPath(names[i]) in FailingDropIns(host, names)
    ensures forall p :: p in FailingDropIns(host, names) ==>
      exists i :: 0 <= i < |names| && FailsCheck(host, names[i]) && p == DropInPath(names[i])
  {
    if names != [] {
      FailingDropInsExactly(host, names[1..]);
      forall i | 0 <= i < |names| && FailsCheck(host, names[i])
        ensures DropInPath(names[i]) in FailingDropIns(host, names)
      {
        if i > 0 {
          assert names[1..][i - 1] == names[i];
        }
      }
      forall p | p in FailingDropIns(host, names)
        ensures exists i :: 0 <= i < |names| && FailsCheck(host, names[i]) && p == DropInPath(names[i])
      {
        if p !in FailingDropIns(host, names[1..]) {
          assert FailsCheck(host, names[0]) && p == DropInPath(names[0]);
        } else {
          var j :| 0 <= j < |names[1..]| && FailsCheck(host, names[1..][j]) && p == DropInPath(names[1..][j]);
          assert names[j + 1] == names[1..][j];
        }
      }
    }
  }

  /** README is never among the failures, whatever its mode or text, and a
      non-executable entry is never checked. */
  lemma {:induction false} FailingDropInsSkip(host: Host, names: seq<string>, i: nat)
    requires i < |names| && (names[i] == Readme || DropInPath(names[i]) !in host.executable)
    requires forall j :: 0 <= j < |names| && j != i ==> DropInPath(names[j]) != DropInPath(names[i])
    ensures DropInPath(names[i]) !in FailingDropIns(host, names)
  {
    FailingDropInsExactly(host, names);
  }

  /** The space-joined value splits back into the paths when no path holds
      a space and none is empty. */
  function SplitSpace(s: string): (r: seq<string>)
    ensures |r| >= 1
    decreases |s|
  {
    if s == [] then [[]]
    else if s[0] == ' ' then [[]] + SplitSpace(s[1..])
    else
      var r := SplitSpace(s[1..]);
      [[s[0]] + r[0]] + r[1..]
  }

  lemma {:induction false} SplitSpaceNoBlank(p: string, rest: string)
    requires forall i :: 0 <= i < |p| ==> p[i] != ' '
    ensures SplitSpace(p + rest) == [p + SplitSpace(rest)[0]] + SplitSpace(rest)[1..]
    decreases |p|
  {
    if p != [] {
      var s := p + rest;
      assert s[0] == p[0] && p[0] != ' ';
      assert s[1..] == p[1..] + rest;
      assert forall i :: 0 <= i < |p[1..]| ==> p[1..][i] == p[i + 1];
      SplitSpaceNoBlank(p[1..], rest);
      var r := SplitSpace(s[1..]);
      assert SplitSpace(s) == [[s[0]] + r[0]] + r[1..];
      assert [p[0]] + (p[1..] + SplitSpace(rest)[0]) == p + SplitSpace(rest)[0];
    } else {
      var r := SplitSpace(rest);
      assert p + rest == rest && p + r[0] == r[0];
      assert r == [r[0]] + r[1..];
    }
  }

  lemma {:induction false} JoinSpaceSplits(paths: seq<string>)
    requires paths != []
    requires forall k, i :: 0 <= k < |paths| && 0 <= i < |paths[k]| ==> paths[k][i] != ' '
    ensures SplitSpace(JoinSpace(paths)) == paths
  {
    if |paths| == 1 {
      SplitSpaceNoBlank(paths[0], []);
      assert paths[0] + [] == paths[0];
    } else {
      var rest := JoinSpace(paths[1..]);
      JoinSpaceSplits(paths[1..]);
      assert paths[0] + " " + rest == paths[0] + (" " + rest);
      SplitSpaceNoBlank(paths[0], " " + rest);
      assert (" " + rest)[1..] == rest;
      assert paths[0] + [] == paths[0];
      assert paths == [paths[0]] + paths[1..];
    }
  }

  // ---------------------------------------------------------------------
  // The report

  /** The key _attach_file_filtered and attach_file use: an empty or absent
      key defaults to path_to_key(path). */
  function KeyFor(host: Host, path: string, key: Option<string>): string {
    if key == None || key == Some("") then host.pathToKey(path) else key.value
  }

  /** The report after attach_file(report, path) with the default key. */
  function AttachDefault(m: map<string, string>, host: Host, path: string): map<string, string> {
    match host.attachFile(path)
    case None => m
    case Some(t) => m[host.pathToKey(path) := t]
  }

  /** attach_file(report, path) for each path in turn, under the default key. */
  function AttachAll(m: map<string, string>, host: Host, paths: seq<string>): map<string, string>
    decreases |paths|
  {
    if paths == [] then m
    else AttachAll(AttachDefault(m, host, paths[0]), host, paths[1..])
  }

  /** After attaching, a key no path maps to keeps its value, and a path
      whose key no later path shares holds what attach_file stored for it. */
  lemma {:induction false} AttachAllStores(m: map<string, string>, host: Host, paths: seq<string>)
    ensures forall k :: (forall i :: 0 <= i < |paths| ==> host.pathToKey(paths[i]) != k) ==>
      (k in AttachAll(m, host, paths) <==> k in m) &&
      (k in m ==> AttachAll(m, host, paths)[k] == m[k])
    ensures forall i :: (0 <= i < |paths| && host.attachFile(paths[i]).Some? &&
      (forall j :: i < j < |paths| ==> host.pathToKey(paths[j]) != host.pathToKey(paths[i]))) ==>
      host.pathToKey(paths[i]) in AttachAll(m, host, paths) &&
      AttachAll(m, host, paths)[host.pathToKey(paths[i])] == host.attachFile(paths[i]).value
    decreases |paths|
  {
    if paths != [] {
      var m' := AttachDefault(m, host, paths[0]);
      AttachAllStores(m', host, paths[1..]);
      forall i | 0 <= i < |paths| && host.attachFile(paths[i]).Some? &&
        (forall j :: i < j < |paths| ==> host.pathToKey(paths[j]) != host.pathToKey(paths[i]))
        ensures host.pathToKey(paths[i]) in AttachAll(m, host, paths)
        ensures AttachAll(m, host, paths)[host.pathToKey(paths[i])] == host.attachFile(paths[i]).value
      {
        if i > 0 {
          assert paths[1..][i - 1] == paths[i];
          forall j | i - 1 < j < |paths[1..]|
            ensures host.pathToKey(paths[1..][j]) != host.pathToKey(paths[1..][i - 1])
          {
            assert paths[1..][j] == paths[j + 1];
          }
        } else {
          forall j | 0 <= j < |paths[1..]|
            ensures host.pathToKey(paths[1..][j]) != host.pathToKey(paths[0])
          {
            assert paths[1..][j] == paths[j + 1];
          }
        }
      }
    }
  }

  /** The bug report: a dictionary the hook updates in place. */
  class Report {
    var entries: map<string, string>

    constructor (initial: map<string, string>)
      ensures entries == initial
    {
      entries := initial;
    }

    /** attach_file: apport's own function, which the hook only calls; what
        it stores for the path (host.attachFile) goes under the key, and
        when it stores nothing the report is unchanged. */
    method AttachFile(host: Host, path: string, key: Option<string>)
      modifies this
      ensures host.attachFile(path).Some? ==>
        entries == old(entries)[KeyFor(host, path, key) := host.attachFile(path).value]
      ensures host.attachFile(path).None? ==> entries == old(entries)
    {
      var k := KeyFor(host, path, key);
      match host.attachFile(path) {
        case Some(t) => entries := entries[k := t];
        case None =>
      }
    }

    /** _attach_file_filtered: store the file's text with its password lines
        redacted; a missing file leaves the report untouched. */
    method AttachFileFiltered(host: Host, path: string, key: Option<string>)
      modifies this
      ensures path in host.files ==>
        entries == old(entries)[KeyFor(host, path, key) := Filtered(host.files[path])]
      ensures path !in host.files ==> entries == old(entries)
    {
      var k := KeyFor(host, path, key);
      if path in host.files {
        var lines := ReadLines(host.files[path]);
        var filtered := Redact(lines);
        entries := entries[k := Concat(filtered)];
      }
    }

    /** The loop of add_info over the drop-in directory: the failing
        scripts in listing order, each attached under its default key. */
    method CheckDropIns(host: Host) returns (failed: seq<string>)
      modifies this
      ensures failed == FailingDropIns(host, host.listing)
      ensures entries == AttachAll(old(entries), host, failed)
    {
      failed := [];
      for i := 0 to |host.listing|
        invariant failed == FailingDropIns(host, host.listing[..i])
        invariant entries == AttachAll(old(entries), host, failed)
      {
        var name := host.listing[i];
        var fullpath := DropInPath(name);
        FailingDropInsSnoc(host, host.listing[..i], name);
        assert host.listing[..i + 1] == host.listing[..i] + [name];
        AttachAllSnoc(old(entries), host, failed, fullpath);
        if name != Readme && fullpath in host.executable && fullpath !in host.syntaxOk {
          failed := failed + [fullpath];
          AttachFile(host, fullpath, None);
        } else {
          assert FailingDropIns(host, host.listing[..i + 1]) == failed;
        }
      }
      assert host.listing[..|host.listing|] == host.listing;
    }

    /** add_info. Reading report['ProblemType'] raises KeyError when the key
        is missing; `raised` says so, and the report is then unchanged. */
    method AddInfo(host: Host) returns (raised: bool)
      modifies this
      ensures raised <==> ProblemTypeKey !in old(entries)
      ensures (raised || old(entries)[ProblemTypeKey] != "Package") ==> entries == old(entries)
      ensures !raised && old(entries)[ProblemTypeKey] == "Package" ==>
        var attached := (if host.attachFile(ProcCmdLine).Some?
                         then old(entries)["ProcCmdLine" := host.attachFile(ProcCmdLine).value] else old(entries));
        var base := (if DefaultGrub in host.files
                     then attached["EtcDefaultGrub" := Filtered(host.files[DefaultGrub])] else attached);
        var scripts := AttachAll(base, host, FailingDropIns(host, host.listing));
        entries == (if InvalidScripts(host) == [] then scripts
                    else scripts[InvalidKey := JoinSpace(InvalidScripts(host))])
    {
      if ProblemTypeKey !in entries {
        return true;
      }
      raised := false;
      if entries[ProblemTypeKey] == "Package" {
        AttachFile(host, ProcCmdLine, Some("ProcCmdLine"));
        AttachFileFiltered(host, DefaultGrub, Some("EtcDefaultGrub"));
        ghost var base := entries;

        var invalid: seq<string> := [];
        if DefaultGrub !in host.syntaxOk {
          invalid := invalid + [DefaultGrub];
        }
        var failed := CheckDropIns(host);
        invalid := invalid + failed;
        assert invalid == InvalidScripts(host);

        if invalid != [] {
          entries := entries[InvalidKey := JoinSpace(invalid)];
        }
      }
    }
  }

  lemma {:induction false} FailingDropInsSnoc(host: Host, names: seq<string>, name: string)
    ensures FailingDropIns(host, names + [name]) ==
      FailingDropIns(host, names) + (if FailsCheck(host, name) then [DropInPath(name)] else [])
  {
    if names != [] {
      assert (names + [name])[1..] == names[1..] + [name];
      FailingDropInsSnoc(host, names[1..], name);
    } else {
      assert [name][1..] == [];
    }
  }

  lemma {:induction false} AttachAllSnoc(m: map<string, string>, host: Host, paths: seq<string>, p: string)
    ensures AttachAll(m, host, paths + [p]) ==
      var r := AttachAll(m, host, paths);
      AttachDefault(r, host, p)
    decreases |paths|
  {
    if paths != [] {
      assert (paths + [p])[1..] == paths[1..] + [p];
      AttachAllSnoc(AttachDefault(m, host, paths[0]), host, paths[1..], p);
    } else {
      assert [p][1..] == [];
    }
  }

  /** The primary configuration file is checked first: when it fails it
      heads the list, and the drop-ins follow in listing order. */
  lemma InvalidScriptsOrder(host: Host)
    ensures DefaultGrub !in host.syntaxOk ==> InvalidScripts(host)[0] == DefaultGrub
    ensures DefaultGrub in host.syntaxOk ==> InvalidScripts(host) == FailingDropIns(host, host.listing)
    ensures InvalidScripts(host) == [] <==>
      DefaultGrub in host.syntaxOk && forall i :: 0 <= i < |host.listing| ==> !FailsCheck(host, host.listing[i])
  {
    FailingDropInsExactly(host, host.listing);
    var f := FailingDropIns(host, host.listing);
    if f != [] {
      assert f[0] in f;
    }
  }

  /** The example of a configuration file that sets a password: the
      marker takes the first line's place and the second line follows it
      directly. */
  lemma PasswordExample()
    ensures Filtered(PasswordLine + "\n" + TimeoutLine) == Marker + TimeoutLine
  {
    PasswordLineFacts();
    MarkerAbutsNextLine(PasswordLine, TimeoutLine);
    TimeoutLineKept();
  }

  lemma PasswordLineFacts()
    ensures StartsWithPassword(PasswordLine) && NoNewline(PasswordLine)
  {
    assert PasswordLine[..|Password|] == Password;
  }

  lemma TimeoutLineKept()
    ensures Filtered(TimeoutLine) == TimeoutLine
  {
    var l := TimeoutLine;
    assert l[0] == 'G' && Password[0] == 'p';
    assert !StartsWithPassword(l);
    assert l[..|l| - 1] == "GRUB_TIMEOUT=5";
    assert NoNewline("GRUB_TIMEOUT=5") by {
      forall i | 0 <= i < 14
        ensures "GRUB_TIMEOUT=5"[i] != '\n'
      {
      }
    }
    assert IsLine(l) && l[|l| - 1] == '\n';
    LineLengthOfLine(l, []);
    assert l + [] == l;
    FilteredUnfold(l);
    assert l[|l|..] == [];
  }

  const PasswordLine: string := "password secret123"
  const TimeoutLine: string := "GRUB_TIMEOUT=5\n"
}
