/**
 * Text handling of the batch summary: normalising the lines of the
 * configuration file into CSV, and deriving each run's statistics file name
 * from its clustering path the way `os.path.splitext` splits off an extension.
 */
module BatchConfig {

  /** The characters Python's `str.strip()` and the regex class `\s` treat as whitespace. */
  predicate IsSpace(c: char)
  {
    || c == ' ' || '\t' <= c <= '\r' || '\U{1c}' <= c <= '\U{1f}'
    || c == '\U{85}' || c == '\U{a0}' || c == '\U{1680}' || '\U{2000}' <= c <= '\U{200a}'
    || c == '\U{2028}' || c == '\U{2029}' || c == '\U{202f}' || c == '\U{205f}' || c == '\U{3000}'
  }

  predicate AllSpace(s: string)
  {
    forall i :: 0 <= i < |s| ==> IsSpace(s[i])
  }

  predicate NoSpace(s: string)
  {
    forall i :: 0 <= i < |s| ==> !IsSpace(s[i])
  }

  /** `s` without its leading whitespace. */
  function DropLeadingSpace(s: string): (r: string)
    ensures |r| <= |s| && r == s[|s| - |r|..]
    ensures AllSpace(s[..|s| - |r|])
    ensures r == [] || !IsSpace(r[0])
  {
    if s == [] || !IsSpace(s[0]) then s else DropLeadingSpace(s[1..])
  }

  /** `s` without its trailing whitespace. */
  function DropTrailingSpace(s: string): (r: string)
    ensures |r| <= |s| && r == s[..|r|]
    ensures AllSpace(s[|r|..])
    ensures r == [] || !IsSpace(r[|r| - 1])
  {
    if s == [] || !IsSpace(s[|s| - 1]) then s else DropTrailingSpace(s[..|s| - 1])
  }

  /** Python's `line.strip()`. */
  function Strip(s: string): string
  {
    DropTrailingSpace(DropLeadingSpace(s))
  }

  /** Python's `re.sub(r'\s+', ',', s)`: each maximal run of whitespace becomes one comma. */
  function CollapseSpaces(s: string): (r: string)
    ensures NoSpace(r)
    decreases |s|
  {
    if s == [] then []
    else if IsSpace(s[0]) then [','] + CollapseSpaces(DropLeadingSpace(s[1..]))
    else [s[0]] + CollapseSpaces(s[1..])
  }

  /** One configuration line as a CSV record. */
  function NormalizeLine(line: string): string
  {
    CollapseSpaces(Strip(line))
  }

  /** The longest prefix of `s` without whitespace. */
  function TakeWord(s: string): (w: string)
    ensures NoSpace(w) && |w| <= |s| && w == s[..|w|]
    ensures |w| < |s| ==> IsSpace(s[|w|])
  {
    if s == [] || IsSpace(s[0]) then [] else [s[0]] + TakeWord(s[1..])
  }

  /** The whitespace-separated fields of `s`, as Python's `s.split()` returns them. */
  function Fields(s: string): seq<string>
    decreases |s|
  {
    var t := DropLeadingSpace(s);
    if t == [] then []
    else
      var w := TakeWord(t);
      assert w != [] by {
        assert !IsSpace(t[0]);
      }
      [w] + Fields(t[|w|..])
  }

  /** Each field is a non-empty run of non-whitespace characters. */
  lemma {:induction false} FieldsAreWords(s: string)
    ensures forall i :: 0 <= i < |Fields(s)| ==> Fields(s)[i] != [] && NoSpace(Fields(s)[i])
    decreases |s|
  {
    var t := DropLeadingSpace(s);
    if t != [] {
      var w := TakeWord(t);
      assert !IsSpace(t[0]);
      var rest := t[|w|..];
      FieldsAreWords(rest);
      var ws := Fields(s);
      assert ws == [w] + Fields(rest);
      forall i | 0 <= i < |ws| ensures ws[i] != [] && NoSpace(ws[i]) {
        if i > 0 {
          assert ws[i] == Fields(rest)[i - 1];
        }
      }
    }
  }

  lemma NotInSlice(s: string, c: char, a: nat, b: nat)
    requires c !in s && a <= b <= |s|
    ensures c !in s[a..b]
  {
  }

  /** A character absent from `s` is absent from each of its fields. */
  lemma {:induction false} FieldsWithout(s: string, c: char)
    requires c !in s
    ensures forall i :: 0 <= i < |Fields(s)| ==> c !in Fields(s)[i]
    decreases |s|
  {
    var t := DropLeadingSpace(s);
    if t != [] {
      NotInSlice(s, c, |s| - |t|, |s|);
      var w := TakeWord(t);
      var rest := t[|w|..];
      NotInSlice(t, c, 0, |w|);
      NotInSlice(t, c, |w|, |t|);
      FieldsWithout(rest, c);
      var ws := Fields(s);
      assert ws == [w] + Fields(rest);
      forall i | 0 <= i < |ws| ensures c !in ws[i] {
        if i > 0 {
          assert ws[i] == Fields(rest)[i - 1];
        }
      }
    }
  }

  /** The strings of `ws` with `sep` between consecutive ones. */
  function Join(ws: seq<string>, sep: char): string
  {
    if ws == [] then []
    else if |ws| == 1 then ws[0]
    else ws[0] + [sep] + Join(ws[1..], sep)
  }

  /** `s` cut at every `sep`; always at least one piece. */
  function Split(s: string, sep: char): (r: seq<string>)
    ensures |r| >= 1
  {
    if s == [] then [[]]
    else
      var rest := Split(s[1..], sep);
      if s[0] == sep then [[]] + rest else [[s[0]] + rest[0]] + rest[1..]
  }

  lemma {:induction false} CollapseWord(w: string, x: string)
    requires NoSpace(w)
    ensures CollapseSpaces(w + x) == w + CollapseSpaces(x)
  {
    if w != [] {
      assert (w + x)[1..] == w[1..] + x;
      CollapseWord(w[1..], x);
    } else {
      assert w + x == x;
    }
  }

  lemma CollapseRun(sp: string, x: string)
    requires sp != [] && AllSpace(sp) && (x == [] || !IsSpace(x[0]))
    ensures CollapseSpaces(sp + x) == [','] + CollapseSpaces(x)
  {
    var s := sp + x;
    assert s != [] && s[0] == sp[0] && IsSpace(s[0]);
    assert s[1..] == sp[1..] + x;
    DropAllLeading(sp[1..], x);
    assert CollapseSpaces(s) == [','] + CollapseSpaces(DropLeadingSpace(s[1..]));
  }

  lemma {:induction false} DropAllLeading(sp: string, x: string)
    requires AllSpace(sp) && (x == [] || !IsSpace(x[0]))
    ensures DropLeadingSpace(sp + x) == x
  {
    if sp != [] {
      assert (sp + x)[1..] == sp[1..] + x;
      DropAllLeading(sp[1..], x);
    } else {
      assert sp + x == x;
    }
  }

  lemma {:induction false} DropLeadingAllSpace(s: string)
    requires AllSpace(s)
    ensures DropLeadingSpace(s) == []
  {
    if s != [] {
      DropLeadingAllSpace(s[1..]);
    }
  }

  /** Trailing whitespace after a string that ends in a non-space is all that is dropped. */
  lemma {:induction false} DropTrailingAfterWord(a: string, b: string)
    requires AllSpace(b) && (a == [] || !IsSpace(a[|a| - 1]))
    ensures DropTrailingSpace(a + b) == a
    decreases |b|
  {
    if b == [] {
      assert a + b == a;
    } else {
      assert (a + b)[..|a + b| - 1] == a + b[..|b| - 1];
      DropTrailingAfterWord(a, b[..|b| - 1]);
    }
  }

  /** A prefix survives when whitespace is dropped from the end of something that is not all whitespace. */
  lemma {:induction false} DropTrailingKeepsPrefix(a: string, b: string)
    requires !AllSpace(b)
    ensures DropTrailingSpace(a + b) == a + DropTrailingSpace(b)
    decreases |b|
  {
    var n := |b| - 1;
    assert (a + b)[|a + b| - 1] == b[n];
    if IsSpace(b[n]) {
      assert (a + b)[..|a + b| - 1] == a + b[..n];
      var k :| 0 <= k < |b| && !IsSpace(b[k]);
      assert b[..n][k] == b[k];
      DropTrailingKeepsPrefix(a, b[..n]);
      assert DropTrailingSpace(b) == DropTrailingSpace(b[..n]);
    } else {
      assert DropTrailingSpace(b) == b;
    }
  }

  /** Joining one more leading string puts one separator after it. */
  lemma JoinCons(w: string, ws: seq<string>, sep: char)
    requires ws != []
    ensures Join([w] + ws, sep) == w + [sep] + Join(ws, sep)
  {
    assert ([w] + ws)[1..] == ws;
  }

  /** A word, a run of whitespace, then more text starting with a non-space. */
  lemma WordRunRest(w: string, sp: string, r: string)
    requires NoSpace(w) && sp != [] && AllSpace(sp) && r != [] && !IsSpace(r[0])
    ensures CollapseSpaces(DropTrailingSpace(w + sp + r)) == w + [','] + CollapseSpaces(DropTrailingSpace(r))
  {
    var d := DropTrailingSpace(r);
    assert w + sp + r == (w + sp) + r;
    assert DropTrailingSpace(w + sp + r) == w + (sp + d) by {
      assert !AllSpace(r) by { assert !IsSpace(r[0]); }
      DropTrailingKeepsPrefix(w + sp, r);
      Associative(w, sp, d);
    }
    assert d != [] && d[0] == r[0] by {
      assert !IsSpace(r[0]);
    }
    calc {
      CollapseSpaces(w + (sp + d));
      { CollapseWord(w, sp + d); }
      w + CollapseSpaces(sp + d);
      { CollapseRun(sp, d); }
      w + ([','] + CollapseSpaces(d));
      { Associative(w, [','], CollapseSpaces(d)); }
      w + [','] + CollapseSpaces(d);
    }
  }

  /** The fields of a string that starts with a word are that word and the fields after it. */
  lemma FieldsCons(t: string)
    requires t != [] && !IsSpace(t[0])
    ensures Fields(t) == [TakeWord(t)] + Fields(t[|TakeWord(t)|..])
  {
  }

  /** A word followed only by whitespace. */
  lemma WordThenSpaces(w: string, rest: string)
    requires w != [] && NoSpace(w) && AllSpace(rest)
    ensures CollapseSpaces(DropTrailingSpace(w + rest)) == w
    ensures Fields(rest) == []
  {
    DropLeadingAllSpace(rest);
    DropTrailingAfterWord(w, rest);
    CollapseWord(w, []);
    assert w + [] == w;
  }

  /** Text starting with whitespace but not all whitespace: a run, then text starting with a non-space. */
  lemma SplitRun(rest: string) returns (sp: string, rest': string)
    requires rest != [] && IsSpace(rest[0]) && !AllSpace(rest)
    ensures rest' == DropLeadingSpace(rest) && rest == sp + rest'
    ensures sp != [] && AllSpace(sp) && rest' != [] && !IsSpace(rest'[0])
    ensures Fields(rest) == Fields(rest')
  {
    rest' := DropLeadingSpace(rest);
    var k := |rest| - |rest'|;
    sp := rest[..k];
    assert rest' == rest[k..];
    assert rest == sp + rest';
  }

  lemma Associative(a: string, b: string, c: string)
    ensures a + (b + c) == a + b + c
  {
  }

  lemma WordThenRun(w: string, rest: string)
    requires NoSpace(w) && rest != [] && IsSpace(rest[0]) && !AllSpace(rest)
    ensures CollapseSpaces(DropTrailingSpace(w + rest)) ==
      w + [','] + CollapseSpaces(DropTrailingSpace(DropLeadingSpace(rest)))
  {
    var sp, rest' := SplitRun(rest);
    Associative(w, sp, rest');
    WordRunRest(w, sp, rest');
  }

  /**
   * For a string that does not start with whitespace, collapsing the runs of
   * whitespace of the string without its trailing whitespace comma-joins its
   * fields.
   */
  lemma {:induction false} CollapseIsJoin(t: string)
    requires t == [] || !IsSpace(t[0])
    ensures CollapseSpaces(DropTrailingSpace(t)) == Join(Fields(t), ',')
    decreases |t|
  {
    if t != [] {
      var w := TakeWord(t);
      var rest := t[|w|..];
      assert t == w + rest;
      FieldsCons(t);
      if AllSpace(rest) {
        WordThenSpaces(w, rest);
      } else {
        var sp, rest' := SplitRun(rest);
        calc {
          CollapseSpaces(DropTrailingSpace(t));
          { WordThenRun(w, rest); }
          w + [','] + CollapseSpaces(DropTrailingSpace(rest'));
          { CollapseIsJoin(rest'); }
          w + [','] + Join(Fields(rest'), ',');
          { JoinCons(w, Fields(rest'), ','); }
          Join([w] + Fields(rest'), ',');
        }
      }
    }
  }

  /**
   * A normalised configuration line is the line's whitespace-separated fields
   * joined with commas.
   */
  lemma NormalizeIsJoinOfFields(line: string)
    ensures NormalizeLine(line) == Join(Fields(line), ',')
  {
    var t := DropLeadingSpace(line);
    CollapseIsJoin(t);
    assert Fields(line) == Fields(t);
  }

  lemma {:induction false} SplitWord(w: string, sep: char)
    requires sep !in w
    ensures Split(w, sep) == [w]
  {
    if w != [] {
      SplitWord(w[1..], sep);
      assert [w[0]] + w[1..] == w;
    }
  }

  lemma {:induction false} SplitAfterWord(w: string, x: string, sep: char)
    requires sep !in w
    ensures Split(w + [sep] + x, sep) == [w] + Split(x, sep)
  {
    var s := w + [sep] + x;
    if w == [] {
      assert s == [sep] + x && s[1..] == x;
    } else {
      assert s[1..] == w[1..] + [sep] + x;
      SplitAfterWord(w[1..], x, sep);
      assert [w[0]] + w[1..] == w;
    }
  }

  /** Cutting a joined sequence at the separator gives the pieces back when none contains it. */
  lemma {:induction false} SplitJoin(ws: seq<string>, sep: char)
    requires |ws| >= 1
    requires forall i :: 0 <= i < |ws| ==> sep !in ws[i]
    ensures Split(Join(ws, sep), sep) == ws
  {
    if |ws| == 1 {
      SplitWord(ws[0], sep);
    } else {
      SplitJoin(ws[1..], sep);
      SplitAfterWord(ws[0], Join(ws[1..], sep), sep);
    }
  }

  /** The header put before the normalised configuration lines. */
  const Header: string := "clustering,resolution,clusterer"

  function NormalizeAll(lines: seq<string>): (r: seq<string>)
    ensures |r| == |lines|
    ensures forall i :: 0 <= i < |lines| ==> r[i] == NormalizeLine(lines[i])
  {
    seq(|lines|, i requires 0 <= i < |lines| => NormalizeLine(lines[i]))
  }

  /** The configuration as CSV text: the header, then each normalised line, one per text line. */
  function ConfigCsv(lines: seq<string>): string
  {
    Join([Header] + NormalizeAll(lines), '\n')
  }

  lemma HeaderOneLine()
    ensures '\n' !in Header
  {
  }

  lemma NoSpaceNoBreak(s: string)
    requires NoSpace(s)
    ensures '\n' !in s
  {
  }

  /**
   * The CSV text has the header as its first line and the normalised
   * configuration lines after it, in order: no normalised line contains a
   * line break, so cutting the text at line breaks gives them back.
   */
  lemma ConfigCsvLines(lines: seq<string>)
    ensures Split(ConfigCsv(lines), '\n') == [Header] + NormalizeAll(lines)
  {
    var norm := NormalizeAll(lines);
    forall i | 0 <= i < |norm| ensures '\n' !in norm[i] {
      NoSpaceNoBreak(norm[i]);
    }
    HeaderOneLine();
    var ws := [Header] + norm;
    forall i | 0 <= i < |ws| ensures '\n' !in ws[i] {
      if i > 0 {
        assert ws[i] == norm[i - 1];
      }
    }
    SplitJoin(ws, '\n');
  }

  /** The `clustering` cell of a configuration line: its first comma-separated field. */
  function ClusteringOf(line: string): string
  {
    Split(NormalizeLine(line), ',')[0]
  }

  /** The `clustering` column; lines that normalise to nothing are blank and skipped. */
  function Clusterings(lines: seq<string>): seq<string>
  {
    if lines == [] then []
    else if NormalizeLine(lines[0]) == [] then Clusterings(lines[1..])
    else [ClusteringOf(lines[0])] + Clusterings(lines[1..])
  }

  /**
   * For a configuration line without commas, the clustering is its first
   * whitespace-separated field, and the line is blank exactly when it has no field.
   */
  lemma ClusteringIsFirstField(line: string)
    requires ',' !in line
    ensures NormalizeLine(line) == [] <==> Fields(line) == []
    ensures Fields(line) != [] ==> ClusteringOf(line) == Fields(line)[0]
  {
    var ws := Fields(line);
    NormalizeIsJoinOfFields(line);
    if ws != [] {
      FieldsWithout(line, ',');
      SplitJoin(ws, ',');
      if |ws| > 1 { assert |Join(ws, ',')| >= |ws[0]| + 1; }
    }
  }

  // ---------------------------------------------------------------------------
  // File names

  /** The last index of `c` in `s`, or -1. */
  function LastIndexOf(s: string, c: char): (r: int)
    ensures -1 <= r < |s|
    ensures r >= 0 ==> s[r] == c
    ensures forall k :: r < k < |s| ==> s[k] != c
  {
    if s == [] then -1
    else if s[|s| - 1] == c then |s| - 1
    else LastIndexOf(s[..|s| - 1], c)
  }

  predicate AllDots(s: string)
  {
    forall i :: 0 <= i < |s| ==> s[i] == '.'
  }

  lemma AbsentAfter(s: string, c: char, r: int)
    requires -1 <= r < |s|
    requires forall k :: r < k < |s| ==> s[k] != c
    ensures c !in s[r + 1..]
  {
  }

  lemma CutAt(p: string, k: nat)
    requires k <= |p|
    ensures p[..k] + p[k..] == p && p[..|p|] == p && p[|p|..] == []
  {
  }

  /**
   * The last path component of `p` has a dot somewhere after a character that
   * is not a dot: a character `p[i]`, not a dot, with no slash from it to the
   * end of the path, and a dot `p[j]` after it.
   */
  predicate HasExtension(p: string)
  {
    exists i, j :: 0 <= i < j < |p| && p[i] != '.' && p[j] == '.' && '/' !in p[i..]
  }

  /** A non-dot after the last slash and before the last dot gives an extension. */
  lemma ExtensionFromTest(p: string, sepIndex: int, dotIndex: int)
    requires sepIndex == LastIndexOf(p, '/') && dotIndex == LastIndexOf(p, '.')
    requires dotIndex > sepIndex && !AllDots(p[sepIndex + 1..dotIndex])
    ensures HasExtension(p)
  {
    var name := p[sepIndex + 1..dotIndex];
    var k :| 0 <= k < |name| && name[k] != '.';
    var i := sepIndex + 1 + k;
    assert p[i] == name[k];
    assert '/' !in p[i..] by {
      forall m | i <= m < |p| ensures p[m] != '/' {
      }
    }
    assert 0 <= i < dotIndex < |p| && p[i] != '.' && p[dotIndex] == '.' && '/' !in p[i..];
  }

  /** A character absent from `s[i..]` last occurs before `i`. */
  lemma LastIndexBefore(s: string, c: char, i: nat)
    requires i <= |s| && c !in s[i..]
    ensures LastIndexOf(s, c) < i
  {
  }

  /** An extension is found by the test: its non-dot lies after the last slash and before the last dot. */
  lemma TestFromExtension(p: string, sepIndex: int, dotIndex: int)
    requires sepIndex == LastIndexOf(p, '/') && dotIndex == LastIndexOf(p, '.')
    requires HasExtension(p)
    ensures dotIndex > sepIndex && !AllDots(p[sepIndex + 1..dotIndex])
  {
    var i, j :| 0 <= i < j < |p| && p[i] != '.' && p[j] == '.' && '/' !in p[i..];
    assert dotIndex >= j;
    LastIndexBefore(p, '/', i);
    assert p[sepIndex + 1..dotIndex][i - sepIndex - 1] == p[i];
  }

  /** The suffix from a last dot that follows the last slash holds one dot, at its start, and no slash. */
  lemma ExtensionShape(p: string, sepIndex: int, dotIndex: int)
    requires sepIndex == LastIndexOf(p, '/') && dotIndex == LastIndexOf(p, '.')
    requires dotIndex > sepIndex
    ensures var ext := p[dotIndex..];
      ext != [] && ext[0] == '.' && '.' !in ext[1..] && '/' !in ext
  {
    var ext := p[dotIndex..];
    assert '/' !in ext by {
      forall m | 0 <= m < |ext| ensures ext[m] != '/' {
        assert ext[m] == p[dotIndex + m];
      }
    }
    assert '.' !in ext[1..] by {
      forall m | 0 <= m < |ext| - 1 ensures ext[1..][m] != '.' {
        assert ext[1..][m] == p[dotIndex + 1 + m];
      }
    }
  }

  /**
   * `os.path.splitext` on a POSIX path: the root and the extension make up the
   * path; the extension is non-empty exactly when the last component has a dot
   * after a character that is not a dot, and it then runs from the last dot of
   * the path, taking no other dot and no slash.
   */
  function SplitExt(p: string): (r: (string, string))
    ensures r.0 + r.1 == p
    ensures r.1 != [] <==> HasExtension(p)
    ensures r.1 != [] ==> r.1[0] == '.' && '.' !in r.1[1..] && '/' !in r.1
  {
    var sepIndex := LastIndexOf(p, '/');
    var dotIndex := LastIndexOf(p, '.');
    if dotIndex > sepIndex && !AllDots(p[sepIndex + 1..dotIndex]) then
      ExtensionFromTest(p, sepIndex, dotIndex);
      ExtensionShape(p, sepIndex, dotIndex);
      CutAt(p, dotIndex);
      (p[..dotIndex], p[dotIndex..])
    else
      assert !HasExtension(p) by {
        if HasExtension(p) {
          TestFromExtension(p, sepIndex, dotIndex);
        }
      }
      CutAt(p, |p|);
      (p, [])
  }

  /** `k` is the last index of `c` when `c` sits there and nowhere after it. */
  lemma LastIndexAt(s: string, c: char, k: int)
    requires -1 <= k < |s| && (k >= 0 ==> s[k] == c)
    requires forall m :: k < m < |s| ==> s[m] != c
    ensures LastIndexOf(s, c) == k
  {
  }

  /**
   * The extension is taken at the last dot of the last component; a leading
   * dot does not start one, nor does a dot in a directory name.
   */
  lemma SplitExtExamples()
    ensures SplitExt("a/b.txt") == ("a/b", ".txt")
    ensures SplitExt("a/b.tar.gz") == ("a/b.tar", ".gz")
    ensures SplitExt("a/.bashrc") == ("a/.bashrc", "")
    ensures SplitExt("a.d/b") == ("a.d/b", "")
  {
    LastIndexAt("a/b.txt", '/', 1);
    LastIndexAt("a/b.txt", '.', 3);
    assert "a/b.txt"[2..3][0] == 'b';
    assert "a/b.txt"[..3] == "a/b" && "a/b.txt"[3..] == ".txt";
    LastIndexAt("a/b.tar.gz", '/', 1);
    LastIndexAt("a/b.tar.gz", '.', 7);
    assert "a/b.tar.gz"[2..7][0] == 'b';
    assert "a/b.tar.gz"[..7] == "a/b.tar" && "a/b.tar.gz"[7..] == ".gz";
    LastIndexAt("a/.bashrc", '/', 1);
    LastIndexAt("a/.bashrc", '.', 2);
    assert "a/.bashrc"[2..2] == [];
    LastIndexAt("a.d/b", '/', 3);
    LastIndexAt("a.d/b", '.', 1);
  }

  /** The statistics file of a clustering: its path with the extension replaced by `_stats.csv`. */
  function StatsFileName(clustering: string): string
  {
    SplitExt(clustering).0 + "_stats.csv"
  }

  lemma {:induction false} LastIndexOfAppend(a: string, b: string, c: char)
    ensures LastIndexOf(a + b, c) == if c in b then |a| + LastIndexOf(b, c) else LastIndexOf(a, c)
    decreases |b|
  {
    if b == [] {
      assert a + b == a;
    } else {
      var n := |b| - 1;
      assert (a + b)[..|a + b| - 1] == a + b[..n];
      if b[n] != c {
        LastIndexOfAppend(a, b[..n], c);
        assert c in b <==> c in b[..n] by {
          assert b == b[..n] + [b[n]];
        }
      }
    }
  }

  lemma StatsSuffixIndices()
    ensures '.' in "_stats.csv" && '/' !in "_stats.csv"
    ensures LastIndexOf("_stats.csv", '.') == 6
  {
    assert "_stats.csv"[6] == '.';
  }

  lemma StatsNameIndices(root: string)
    ensures LastIndexOf(root + "_stats.csv", '.') == |root| + 6
    ensures LastIndexOf(root + "_stats.csv", '/') == LastIndexOf(root, '/')
  {
    StatsSuffixIndices();
    LastIndexOfAppend(root, "_stats.csv", '.');
    LastIndexOfAppend(root, "_stats.csv", '/');
  }

  lemma {:induction false} StatsSuffixSplits(root: string)
    ensures SplitExt(root + "_stats.csv") == (root + "_stats", ".csv")
  {
    var q := root + "_stats.csv";
    var sepIndex := LastIndexOf(q, '/');
    var dotIndex := LastIndexOf(q, '.');
    assert dotIndex == |root| + 6 && sepIndex < |root| by {
      StatsNameIndices(root);
    }
    assert !AllDots(q[sepIndex + 1..dotIndex]) by {
      assert q[|root|] == '_';
      assert q[sepIndex + 1..dotIndex][|root| - sepIndex - 1] == '_';
    }
    assert q[..dotIndex] == root + "_stats" && q[dotIndex..] == ".csv" by {
      assert q[..|root| + 6] == root + "_stats";
      assert q[|root| + 6..] == ".csv";
    }
  }

  /**
   * The statistics file name splits back into the clustering's root with
   * `_stats` appended and the extension `.csv`.
   */
  lemma StatsFileNameSplits(clustering: string)
    ensures SplitExt(StatsFileName(clustering)) == (SplitExt(clustering).0 + "_stats", ".csv")
  {
    StatsSuffixSplits(SplitExt(clustering).0);
  }
}
