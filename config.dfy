/**
 * The line rules of `read_config` (gts.c:82-137), over the lines `fgets`
 * returns.  Reading the file and the environment is left to the caller:
 * `lines` is None when the file cannot be opened, and `home` is `$HOME`.
 */
module Configuration {
  import opened Wrappers
  import opened Filters

  const MAX_TOP_LEVEL_DIRS: nat := 5
  const MAX_EXCLUSIONS: nat := 20

  /** The length of the run of non-separator characters at the start of `s`. */
  function RunLength(s: string, sep: char): (n: nat)
    ensures n <= |s| && (n < |s| ==> s[n] == sep)
    ensures forall i :: 0 <= i < n ==> s[i] != sep
  {
    if s == [] || s[0] == sep then 0 else 1 + RunLength(s[1..], sep)
  }

  /** The tokens successive `strtok` calls return: the maximal runs of
      characters other than `sep`, in order; separators at the start, at the
      end and in a row yield no empty token. */
  function Tokens(s: string, sep: char): (ts: seq<string>)
    ensures s == [] ==> ts == []
    ensures forall t :: t in ts ==> |t| > 0 && sep !in t
    decreases |s|
  {
    if s == [] then []
    else if s[0] == sep then Tokens(s[1..], sep)
    else
      var n := RunLength(s, sep);
      [s[..n]] + Tokens(s[n..], sep)
  }

  /** Splitting at a separator splits the token list: nothing is lost or merged. */
  lemma {:induction false} TokensSplit(s: string, sep: char, t: string)
    ensures Tokens(s + [sep] + t, sep) == Tokens(s, sep) + Tokens(t, sep)
    decreases |s|
  {
    var u := s + [sep] + t;
    if s == [] {
      assert u[1..] == t;
    } else if s[0] == sep {
      assert u[1..] == s[1..] + [sep] + t;
      TokensSplit(s[1..], sep, t);
    } else {
      var n := RunLength(s, sep);
      RunLengthExtends(s, sep, [sep] + t);
      assert u == s + ([sep] + t);
      assert u[..n] == s[..n];
      assert u[n..] == s[n..] + [sep] + t;
      TokensSplit(s[n..], sep, t);
    }
  }

  lemma {:induction false} RunLengthExtends(s: string, sep: char, rest: string)
    requires |rest| > 0 && rest[0] == sep
    ensures RunLength(s + rest, sep) == RunLength(s, sep)
    decreases |s|
  {
    if s != [] && s[0] != sep {
      assert (s + rest)[1..] == s[1..] + rest;
      RunLengthExtends(s[1..], sep, rest);
    }
  }

  /** A string without the separator is one token (or none, when empty). */
  lemma {:induction false} TokensOfPlainWord(s: string, sep: char)
    requires |s| > 0 && sep !in s
    ensures Tokens(s, sep) == [s]
  {
    PlainRunLength(s, sep);
    assert s[..|s|] == s;
    assert s[|s|..] == [];
  }

  lemma {:induction false} PlainRunLength(s: string, sep: char)
    requires sep !in s
    ensures RunLength(s, sep) == |s|
    decreases |s|
  {
    if s != [] {
      PlainRunLength(s[1..], sep);
    }
  }

  /** gts.c:105: the line up to its first newline. */
  function StripNewline(line: string): (s: string)
    ensures '\n' !in s && s <= line
    ensures |s| < |line| ==> line[|s|] == '\n'
  {
    if line == [] || line[0] == '\n' then [] else [line[0]] + StripNewline(line[1..])
  }

  /** gts.c:105-121 for one line: comments and empty lines are skipped; a line
      needs a key and a value token; a root is kept while there is room for
      one; exclusions take the comma-separated tokens while there is room. */
  function ApplyLine(cfg: Config, raw: string): Config {
    var line := StripNewline(raw);
    if line == [] || line[0] == '#' then cfg
    else
      var fields := Tokens(line, '=');
      if |fields| < 2 then cfg
      else if fields[0] == "top_level_dir" && |cfg.roots| < MAX_TOP_LEVEL_DIRS then
        cfg.(roots := cfg.roots + [fields[1]])
      else if fields[0] == "exclusions" then
        var words := Tokens(fields[1], ',');
        var room := if |cfg.exclusions| < MAX_EXCLUSIONS then MAX_EXCLUSIONS - |cfg.exclusions| else 0;
        cfg.(exclusions := cfg.exclusions + (if |words| <= room then words else words[..room]))
      else cfg
  }

  function ApplyLines(cfg: Config, lines: seq<string>): Config
    decreases |lines|
  {
    if lines == [] then cfg else ApplyLines(ApplyLine(cfg, lines[0]), lines[1..])
  }

  /** `read_config`: with no file, `$HOME` and `node_modules`; otherwise the
      file's entries, each list falling back to its default when empty. */
  function ReadConfig(lines: Option<seq<string>>, home: string): Config {
    if lines.None? then Config([home], ["node_modules"])
    else
      var cfg := ApplyLines(Config([], []), lines.value);
      Config(if cfg.roots == [] then [home] else cfg.roots,
             if cfg.exclusions == [] then ["node_modules"] else cfg.exclusions)
  }

  ghost predicate WithinCaps(cfg: Config) {
    && |cfg.roots| <= MAX_TOP_LEVEL_DIRS
    && |cfg.exclusions| <= MAX_EXCLUSIONS
    && forall e :: e in cfg.exclusions ==> |e| > 0 && ',' !in e
  }

  /** Each line keeps the caps and only appends: earlier entries stay first. */
  lemma ApplyLineKeepsCaps(cfg: Config, raw: string)
    requires WithinCaps(cfg)
    ensures var r := ApplyLine(cfg, raw);
      WithinCaps(r) && cfg.roots <= r.roots && cfg.exclusions <= r.exclusions
  {
  }

  lemma {:induction false} ApplyLinesKeepsCaps(cfg: Config, lines: seq<string>)
    requires WithinCaps(cfg)
    ensures var r := ApplyLines(cfg, lines);
      WithinCaps(r) && cfg.roots <= r.roots && cfg.exclusions <= r.exclusions
    decreases |lines|
  {
    if lines != [] {
      ApplyLineKeepsCaps(cfg, lines[0]);
      ApplyLinesKeepsCaps(ApplyLine(cfg, lines[0]), lines[1..]);
    }
  }

  /** The configuration the search sees: one to five roots and one to twenty
      non-empty, comma-free exclusions; the defaults without a file; with a
      file, each list it leaves empty falls back to its default and each list
      it fills is kept as read. */
  lemma ReadConfigFacts(lines: Option<seq<string>>, home: string)
    ensures var cfg := ReadConfig(lines, home);
      && 1 <= |cfg.roots| <= MAX_TOP_LEVEL_DIRS
      && 1 <= |cfg.exclusions| <= MAX_EXCLUSIONS
      && (forall e :: e in cfg.exclusions ==> |e| > 0 && ',' !in e)
      && (lines.None? ==> cfg == Config([home], ["node_modules"]))
    ensures lines.Some? ==>
      var read := ApplyLines(Config([], []), lines.value);
      var cfg := ReadConfig(lines, home);
      && (read.roots == [] ==> cfg.roots == [home])
      && (read.roots != [] ==> cfg.roots == read.roots)
      && (read.exclusions == [] ==> cfg.exclusions == ["node_modules"])
      && (read.exclusions != [] ==> cfg.exclusions == read.exclusions)
  {
    if lines.Some? {
      ApplyLinesKeepsCaps(Config([], []), lines.value);
    }
  }

  lemma {:induction false} StripNewlineOfPlain(s: string, rest: string)
    requires '\n' !in s && (rest == [] || rest[0] == '\n')
    ensures StripNewline(s + rest) == s
    decreases |s|
  {
    if s != [] {
      assert (s + rest)[1..] == s[1..] + rest;
      StripNewlineOfPlain(s[1..], rest);
    }
  }
}
