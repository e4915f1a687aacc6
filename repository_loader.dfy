/** The test repository: a text file of lines `PACKAGE: DEP1, DEP2@VER, ...`
    parsed into an insertion-ordered dictionary of dependency dictionaries,
    and served to the graph builder as a dependency source. */
module RepositoryLoader {
  import opened Text
  import opened Wrappers
  import opened GraphModel

  // ---------------------------------------------------------------------
  // Insertion-ordered dictionaries

  /** A dictionary with string keys: the keys in insertion order and the
      value stored for each. */
  datatype Dict<V> = Dict(keys: seq<string>, values: map<string, V>)

  /** Each key listed once, and exactly the keys that have a value. */
  ghost predicate WellFormed<V>(d: Dict<V>) {
    Distinct(d.keys) && forall k :: k in d.keys <==> k in d.values
  }

  function Empty<V>(): (r: Dict<V>)
    ensures WellFormed(r)
  {
    Dict([], map[])
  }

  /** `d[k] = v`: a key already present keeps its position and gets the
      new value; a new key goes last. */
  function Insert<V>(d: Dict<V>, k: string, v: V): (r: Dict<V>)
    ensures WellFormed(d) ==> WellFormed(r)
    ensures r.values == d.values[k := v]
  {
    if k in d.values then Dict(d.keys, d.values[k := v])
    else Dict(d.keys + [k], d.values[k := v])
  }

  /** The first `i` entries of `d`. */
  ghost function Prefix<V>(d: Dict<V>, i: nat): Dict<V>
    requires i <= |d.keys|
  {
    Dict(d.keys[..i], map k | k in d.keys[..i] && k in d.values :: d.values[k])
  }

  /** Inserting the entries of a dictionary in key order rebuilds it. */
  lemma PrefixStep<V>(d: Dict<V>, i: nat)
    requires WellFormed(d) && i < |d.keys|
    ensures Insert(Prefix(d, i), d.keys[i], d.values[d.keys[i]]) == Prefix(d, i + 1)
  {
    var k := d.keys[i];
    assert d.keys[..i + 1] == d.keys[..i] + [k];
    assert k !in d.keys[..i];
  }

  lemma PrefixEnds<V>(d: Dict<V>)
    requires WellFormed(d)
    ensures Prefix(d, 0) == Empty()
    ensures Prefix(d, |d.keys|) == d
  {
    assert d.keys[..|d.keys|] == d.keys;
  }

  /** `get_dependencies`: the dictionary stored for `name`, or an empty one. */
  function Lookup(repo: Dict<Dict<string>>, name: string): Dict<string> {
    if name in repo.values then repo.values[name] else Empty()
  }

  // ---------------------------------------------------------------------
  // The text format

  const DefaultVersion: string := "1.0.0"

  /** One stripped, non-empty entry: `NAME@VERSION` splits at the first
      `@` and both halves are stripped; a bare `NAME` gets the default
      version. */
  function ParseEntry(dep: string): (string, string) {
    if '@' in dep then
      var (name, version) := SplitOnce(dep, '@');
      (Strip(name), Strip(version))
    else (dep, DefaultVersion)
  }

  /** One comma-separated piece: stripped, skipped when empty, otherwise
      stored (a repeated name keeps its first position and its last version). */
  function AddPiece(d: Dict<string>, piece: string): Dict<string> {
    var dep := Strip(piece);
    if dep == "" then d
    else Insert(d, ParseEntry(dep).0, ParseEntry(dep).1)
  }

  function ParsePieces(pieces: seq<string>): (r: Dict<string>)
    ensures WellFormed(r)
  {
    if pieces == [] then Empty()
    else AddPiece(ParsePieces(pieces[..|pieces| - 1]), pieces[|pieces| - 1])
  }

  lemma ParsePiecesStep(pieces: seq<string>, j: nat)
    requires j < |pieces|
    ensures ParsePieces(pieces[..j + 1]) == AddPiece(ParsePieces(pieces[..j]), pieces[j])
  {
    assert pieces[..j + 1][..j] == pieces[..j];
  }

  /** The piece names the dependency `name`. */
  ghost predicate Names(piece: string, name: string) {
    Strip(piece) != "" && ParseEntry(Strip(piece)).0 == name
  }

  /** One piece changes only the name it gives, and only ever appends
      to the key order. */
  lemma AddPieceEffect(d: Dict<string>, piece: string, name: string)
    ensures d.keys <= AddPiece(d, piece).keys
    ensures Names(piece, name) ==>
      name in AddPiece(d, piece).values && AddPiece(d, piece).values[name] == ParseEntry(Strip(piece)).1
    ensures !Names(piece, name) ==> (name in AddPiece(d, piece).values <==> name in d.values)
    ensures !Names(piece, name) && name in d.values ==> AddPiece(d, piece).values[name] == d.values[name]
  {
  }

  /** A dependency named by piece `j` and by no later piece is stored
      with the version of piece `j`: a repeated name keeps its last
      version. */
  lemma {:induction false} LastPieceWins(pieces: seq<string>, name: string, j: nat)
    requires j < |pieces| && Names(pieces[j], name)
    requires forall k :: j < k < |pieces| ==> !Names(pieces[k], name)
    ensures name in ParsePieces(pieces).values
    ensures ParsePieces(pieces).values[name] == ParseEntry(Strip(pieces[j])).1
    decreases |pieces|
  {
    var n := |pieces| - 1;
    var init := pieces[..n];
    AddPieceEffect(ParsePieces(init), pieces[n], name);
    if j < n {
      assert init[j] == pieces[j];
      assert forall k :: j < k < |init| ==> init[k] == pieces[k];
      LastPieceWins(init, name, j);
    }
  }

  /** The index of the last piece naming `name`, or -1 if none does. */
  ghost function LastNaming(pieces: seq<string>, name: string): (r: int)
    ensures -1 <= r < |pieces|
    ensures r >= 0 ==> Names(pieces[r], name)
    ensures forall k :: r < k < |pieces| ==> !Names(pieces[k], name)
  {
    if pieces == [] then -1
    else if Names(pieces[|pieces| - 1], name) then |pieces| - 1
    else LastNaming(pieces[..|pieces| - 1], name)
  }

  /** A dependency is stored exactly when some piece names it. */
  lemma {:induction false} NamedPiecesPresent(pieces: seq<string>, name: string)
    ensures name in ParsePieces(pieces).values <==> LastNaming(pieces, name) >= 0
    decreases |pieces|
  {
    if pieces != [] {
      var n := |pieces| - 1;
      AddPieceEffect(ParsePieces(pieces[..n]), pieces[n], name);
      NamedPiecesPresent(pieces[..n], name);
    }
  }

  /** Piece `j` only ever appends to the key order. */
  lemma PieceAppends(pieces: seq<string>, j: nat)
    requires j < |pieces|
    ensures ParsePieces(pieces[..j]).keys <= ParsePieces(pieces[..j + 1]).keys
  {
    ParsePiecesStep(pieces, j);
    AddPieceEffect(ParsePieces(pieces[..j]), pieces[j], "");
  }

  lemma PrefixTrans(a: seq<string>, b: seq<string>, c: seq<string>)
    requires a <= b && b <= c
    ensures a <= c
  {
    assert c[..|b|] == b;
    assert c[..|a|] == b[..|a|];
  }

  /** Later pieces never move a name already stored: each prefix of the
      pieces gives a prefix of the key order, so a repeated name keeps
      the position of its first piece. */
  lemma {:induction false} FirstPositionKept(pieces: seq<string>, j: nat)
    requires j <= |pieces|
    ensures ParsePieces(pieces[..j]).keys <= ParsePieces(pieces).keys
    decreases |pieces| - j
  {
    if j < |pieces| {
      PieceAppends(pieces, j);
      FirstPositionKept(pieces, j + 1);
      PrefixTrans(ParsePieces(pieces[..j]).keys, ParsePieces(pieces[..j + 1]).keys, ParsePieces(pieces).keys);
    } else {
      assert pieces[..j] == pieces;
    }
  }

  /** The dependency list after the colon, already stripped. */
  function ParseDeps(depsStr: string): (r: Dict<string>)
    ensures WellFormed(r)
  {
    if depsStr == "" then Empty() else ParsePieces(Split(depsStr, ','))
  }

  /** Within one line, a dependency is stored exactly when some comma
      piece names it, with the version of the last such piece. */
  lemma LastDepWins(depsStr: string, name: string)
    ensures name in ParseDeps(depsStr).values <==> depsStr != "" && LastNaming(Split(depsStr, ','), name) >= 0
    ensures depsStr != "" && LastNaming(Split(depsStr, ','), name) >= 0 ==>
      ParseDeps(depsStr).values[name] == ParseEntry(Strip(Split(depsStr, ',')[LastNaming(Split(depsStr, ','), name)])).1
  {
    if depsStr != "" {
      var pieces := Split(depsStr, ',');
      NamedPiecesPresent(pieces, name);
      var j := LastNaming(pieces, name);
      if j >= 0 {
        LastPieceWins(pieces, name, j);
      }
    }
  }

  /** One line: stripped; blank lines, `#` comments and lines without a
      colon define nothing; otherwise the name before the first colon
      (stripped) and the dependencies after it. */
  function ParseLine(raw: string): Option<(string, Dict<string>)> {
    var line := Strip(raw);
    if line == "" || line[0] == '#' || ':' !in line then None
    else
      var (package, rest) := SplitOnce(line, ':');
      Some((Strip(package), ParseDeps(Strip(rest))))
  }

  /** A parsed line: a later line for the same package replaces the
      earlier dictionary and keeps the package's first position. */
  function AddParsed(repo: Dict<Dict<string>>, parsed: Option<(string, Dict<string>)>): Dict<Dict<string>> {
    match parsed
    case None => repo
    case Some((package, deps)) => Insert(repo, package, deps)
  }

  function AddLine(repo: Dict<Dict<string>>, raw: string): Dict<Dict<string>> {
    AddParsed(repo, ParseLine(raw))
  }

  function ParseLines(lines: seq<string>): (r: Dict<Dict<string>>)
    ensures WellFormed(r)
    ensures forall p :: p in r.values ==> WellFormed(r.values[p])
  {
    if lines == [] then Empty()
    else AddLine(ParseLines(lines[..|lines| - 1]), lines[|lines| - 1])
  }

  lemma ParseLinesStep(lines: seq<string>, i: nat)
    requires i < |lines|
    ensures ParseLines(lines[..i + 1]) == AddLine(ParseLines(lines[..i]), lines[i])
  {
    assert lines[..i + 1][..i] == lines[..i];
  }

  /** `_parse_text_format(content)`. */
  function ParseText(content: string): Dict<Dict<string>> {
    ParseLines(Split(content, '\n'))
  }

  /** The parser itself: a loop over the lines; each dependency list is
      read by `ParseDependencyList`. */
  method ParseTextFormat(content: string) returns (repository: Dict<Dict<string>>)
    ensures repository == ParseText(content)
  {
    repository := Empty();
    var lines := Split(content, '\n');
    var i := 0;
    assert lines[..0] == [];
    while i < |lines|
      invariant 0 <= i <= |lines|
      invariant repository == ParseLines(lines[..i])
    {
      ParseLinesStep(lines, i);
      var line := Strip(lines[i]);
      if line != "" && line[0] != '#' && ':' in line {
        var (package, rest) := SplitOnce(line, ':');
        var dependencies := ParseDependencyList(Strip(rest));
        repository := Insert(repository, Strip(package), dependencies);
      }
      i := i + 1;
    }
    assert lines[..|lines|] == lines;
  }

  /** The loop over the comma-separated pieces of one stripped list. */
  method ParseDependencyList(depsStr: string) returns (dependencies: Dict<string>)
    ensures dependencies == ParseDeps(depsStr)
  {
    dependencies := Empty();
    if depsStr != "" {
      var pieces := Split(depsStr, ',');
      var j := 0;
      assert pieces[..0] == [];
      while j < |pieces|
        invariant 0 <= j <= |pieces|
        invariant dependencies == ParsePieces(pieces[..j])
      {
        ParsePiecesStep(pieces, j);
        var dep := Strip(pieces[j]);
        if dep != "" {
          var (depName, depVersion) := ParseEntry(dep);
          dependencies := Insert(dependencies, depName, depVersion);
        }
        j := j + 1;
      }
      assert pieces[..|pieces|] == pieces;
    }
  }

  // ---------------------------------------------------------------------
  // What the parser guarantees

  /** Every line as `ParseLine` reads it. */
  ghost function ParsedLines(lines: seq<string>): seq<Option<(string, Dict<string>)>> {
    seq(|lines|, i requires 0 <= i < |lines| => ParseLine(lines[i]))
  }

  /** The parsed lines folded into a repository, first to last. */
  ghost function FoldParsed(parsed: seq<Option<(string, Dict<string>)>>): Dict<Dict<string>> {
    if parsed == [] then Empty()
    else AddParsed(FoldParsed(parsed[..|parsed| - 1]), parsed[|parsed| - 1])
  }

  lemma {:induction false} ParseLinesFold(lines: seq<string>)
    ensures ParseLines(lines) == FoldParsed(ParsedLines(lines))
    decreases |lines|
  {
    if lines != [] {
      var n := |lines| - 1;
      ParseLinesFold(lines[..n]);
      assert ParsedLines(lines)[..n] == ParsedLines(lines[..n]);
    }
  }

  /** The parsed line defines `package`. */
  ghost predicate Defines(parsed: Option<(string, Dict<string>)>, package: string) {
    parsed.Some? && parsed.value.0 == package
  }

  /** The index of the last parsed line that defines `package`, or -1 if
      none does. */
  ghost function LastDefinition(parsed: seq<Option<(string, Dict<string>)>>, package: string): (r: int)
    ensures -1 <= r < |parsed|
    ensures r >= 0 ==> Defines(parsed[r], package)
    ensures forall j :: r < j < |parsed| ==> !Defines(parsed[j], package)
  {
    if parsed == [] then -1
    else if Defines(parsed[|parsed| - 1], package) then |parsed| - 1
    else LastDefinition(parsed[..|parsed| - 1], package)
  }

  lemma {:induction false} LastEntryWins(parsed: seq<Option<(string, Dict<string>)>>, package: string)
    ensures package in FoldParsed(parsed).values <==> LastDefinition(parsed, package) >= 0
    ensures LastDefinition(parsed, package) >= 0 ==>
      FoldParsed(parsed).values[package] == parsed[LastDefinition(parsed, package)].value.1
    decreases |parsed|
  {
    if parsed != [] {
      var n := |parsed| - 1;
      LastEntryWins(parsed[..n], package);
    }
  }

  /** A package is in the repository exactly when some line defines it,
      and its dictionary is the one parsed from the last such line. */
  lemma LastLineWins(lines: seq<string>, package: string)
    ensures package in ParseLines(lines).values <==> LastDefinition(ParsedLines(lines), package) >= 0
    ensures LastDefinition(ParsedLines(lines), package) >= 0 ==>
      ParseLines(lines).values[package] == ParsedLines(lines)[LastDefinition(ParsedLines(lines), package)].value.1
  {
    ParseLinesFold(lines);
    LastEntryWins(ParsedLines(lines), package);
  }

  // ---------------------------------------------------------------------
  // The documented format round-trips

  /** A name or version the text format carries unchanged. */
  predicate Token(t: string) {
    t != [] && Unpadded(t) && ':' !in t && ',' !in t && '@' !in t && '\n' !in t
  }

  /** A repository that can be written in the text format: package names
      are tokens not starting with `#`, dependency names and versions are
      tokens. */
  ghost predicate Writable(repo: Dict<Dict<string>>) {
    && WellFormed(repo)
    && forall p :: p in repo.values ==>
      && Token(p) && p[0] != '#'
      && WellFormed(repo.values[p])
      && forall d :: d in repo.values[p].values ==> Token(d) && Token(repo.values[p].values[d])
  }

  /** The `i`-th entry `NAME@VERSION` of a dependency dictionary. */
  ghost function Entry(d: Dict<string>, i: nat): string
    requires WellFormed(d) && i < |d.keys|
  {
    d.keys[i] + "@" + d.values[d.keys[i]]
  }

  /** The pieces ` NAME@VERSION` of a dependency dictionary, in key order. */
  ghost function RenderPieces(d: Dict<string>): seq<string>
    requires WellFormed(d)
  {
    seq(|d.keys|, i requires 0 <= i < |d.keys| => " " + Entry(d, i))
  }

  /** `PACKAGE: DEP1@VER1, DEP2@VER2` (or `PACKAGE:` with no dependencies). */
  ghost function RenderLine(package: string, d: Dict<string>): string
    requires WellFormed(d)
  {
    package + ":" + Join(",", RenderPieces(d))
  }

  /** One rendered line per package, in key order. */
  ghost function RenderedLines(repo: Dict<Dict<string>>): seq<string>
    requires Writable(repo)
  {
    seq(|repo.keys|, i requires 0 <= i < |repo.keys| => RenderLine(repo.keys[i], repo.values[repo.keys[i]]))
  }

  ghost function Render(repo: Dict<Dict<string>>): string
    requires Writable(repo)
  {
    Join("\n", RenderedLines(repo))
  }

  /** An entry `NAME@VERSION` of two tokens has no blank at either end. */
  lemma EntryUnpadded(name: string, version: string)
    requires Token(name) && Token(version)
    ensures name + "@" + version != [] && Unpadded(name + "@" + version)
    ensures (name + "@" + version)[0] == name[0]
    ensures ',' !in name + "@" + version && '\n' !in name + "@" + version
  {
    var e := name + "@" + version;
    assert e[0] == name[0] && e[|e| - 1] == version[|version| - 1];
  }

  /** Such an entry strips to itself, with or without a leading blank,
      and parses back to its two tokens. */
  lemma EntryRoundTrip(name: string, version: string)
    requires Token(name) && Token(version)
    ensures Strip(name + "@" + version) == name + "@" + version
    ensures Strip(" " + (name + "@" + version)) == name + "@" + version
    ensures ParseEntry(name + "@" + version) == (name, version)
  {
    var e := name + "@" + version;
    EntryUnpadded(name, version);
    StripUnpadded(e);
    StripLeadingSpace(" ", e);
    SplitOnceAt(name, '@', version);
    assert e == name + ['@'] + version;
    StripUnpadded(name);
    StripUnpadded(version);
  }

  lemma AddPieceEntry(acc: Dict<string>, piece: string, name: string, version: string)
    requires Token(name) && Token(version)
    requires Strip(piece) == name + "@" + version
    ensures AddPiece(acc, piece) == Insert(acc, name, version)
  {
    EntryRoundTrip(name, version);
  }

  /** One more piece that strips to the next entry inserts that entry. */
  lemma PiecesStep(d: Dict<string>, pieces: seq<string>, i: nat)
    requires WellFormed(d) && |pieces| == |d.keys| && 0 < i <= |pieces|
    requires Token(d.keys[i - 1]) && d.keys[i - 1] in d.values && Token(d.values[d.keys[i - 1]])
    requires Strip(pieces[i - 1]) == Entry(d, i - 1)
    requires ParsePieces(pieces[..i - 1]) == Prefix(d, i - 1)
    ensures ParsePieces(pieces[..i]) == Prefix(d, i)
  {
    var k := d.keys[i - 1];
    ParsePiecesStep(pieces, i - 1);
    AddPieceEntry(Prefix(d, i - 1), pieces[i - 1], k, d.values[k]);
    PrefixStep(d, i - 1);
  }

  /** Parsing the pieces (the first one without its leading blank) gives
      back the first `i` entries. */
  lemma {:induction false} PiecesRoundTrip(d: Dict<string>, pieces: seq<string>, i: nat)
    requires WellFormed(d) && |pieces| == |d.keys| && i <= |pieces|
    requires forall k :: k in d.values ==> Token(k) && Token(d.values[k])
    requires forall j :: 0 <= j < |pieces| ==> Strip(pieces[j]) == Entry(d, j)
    ensures ParsePieces(pieces[..i]) == Prefix(d, i)
    decreases i
  {
    if i == 0 {
      PrefixEnds(d);
      assert pieces[..0] == [];
    } else {
      PiecesRoundTrip(d, pieces, i - 1);
      assert d.keys[i - 1] in d.values;
      PiecesStep(d, pieces, i);
    }
  }

  /** What the text format needs of one entry. */
  lemma EntryFacts(d: Dict<string>, j: nat)
    requires WellFormed(d) && j < |d.keys|
    requires forall k :: k in d.values ==> Token(k) && Token(d.values[k])
    ensures d.keys[j] != [] && Entry(d, j) != [] && Unpadded(Entry(d, j))
    ensures Entry(d, j)[0] == d.keys[j][0]
    ensures ',' !in Entry(d, j) && '\n' !in Entry(d, j)
  {
    var k := d.keys[j];
    assert k in d.values;
    EntryUnpadded(k, d.values[k]);
  }

  lemma EntryStrips(d: Dict<string>, j: nat)
    requires WellFormed(d) && j < |d.keys|
    requires forall k :: k in d.values ==> Token(k) && Token(d.values[k])
    ensures Strip(Entry(d, j)) == Entry(d, j)
    ensures Strip(" " + Entry(d, j)) == Entry(d, j)
  {
    var k := d.keys[j];
    assert k in d.values;
    EntryRoundTrip(k, d.values[k]);
  }

  /** The pieces the parser sees once the line is stripped: the rendered
      ones, the first without its leading blank. */
  ghost function BarePieces(d: Dict<string>): seq<string>
    requires WellFormed(d) && |d.keys| >= 1
  {
    [Entry(d, 0)] + RenderPieces(d)[1..]
  }

  lemma BarePiecesStrip(d: Dict<string>)
    requires WellFormed(d) && |d.keys| >= 1
    requires forall k :: k in d.values ==> Token(k) && Token(d.values[k])
    ensures |BarePieces(d)| == |d.keys|
    ensures forall j :: 0 <= j < |d.keys| ==> ',' !in BarePieces(d)[j] && Strip(BarePieces(d)[j]) == Entry(d, j)
  {
    var pieces := BarePieces(d);
    forall j | 0 <= j < |d.keys| ensures ',' !in pieces[j] && Strip(pieces[j]) == Entry(d, j) {
      EntryFacts(d, j);
      EntryStrips(d, j);
    }
  }

  /** The rendered list is a blank followed by the bare pieces joined. */
  lemma BarePiecesJoin(d: Dict<string>)
    requires WellFormed(d) && |d.keys| >= 1
    ensures Join(",", RenderPieces(d)) == " " + Join(",", BarePieces(d))
  {
    var pieces := BarePieces(d);
    JoinPadFirst(",", " ", pieces);
    assert [" " + pieces[0]] + pieces[1..] == RenderPieces(d);
  }

  /** The first bare piece starts, and the last one ends, with a
      character that is not a blank. */
  lemma BarePiecesEnds(d: Dict<string>)
    requires WellFormed(d) && |d.keys| >= 1
    requires forall k :: k in d.values ==> Token(k) && Token(d.values[k])
    ensures var pieces := BarePieces(d);
      && |pieces| == |d.keys|
      && pieces[0] != [] && !IsSpace(pieces[0][0])
      && pieces[|pieces| - 1] != [] && !IsSpace(pieces[|pieces| - 1][|pieces[|pieces| - 1]| - 1])
  {
    var n := |d.keys|;
    var pieces := BarePieces(d);
    EntryFacts(d, 0);
    EntryFacts(d, n - 1);
    var e := Entry(d, n - 1);
    assert !IsSpace(e[|e| - 1]);
    if n > 1 {
      assert pieces[n - 1] == " " + e;
    } else {
      assert pieces[n - 1] == e;
    }
  }

  /** The bare pieces joined have no blank at either end. */
  lemma BarePiecesUnpadded(d: Dict<string>)
    requires WellFormed(d) && |d.keys| >= 1
    requires forall k :: k in d.values ==> Token(k) && Token(d.values[k])
    ensures Join(",", BarePieces(d)) != [] && Unpadded(Join(",", BarePieces(d)))
  {
    BarePiecesEnds(d);
    JoinUnpadded(",", BarePieces(d));
  }

  /** The bare pieces parse back to the dictionary they were rendered from. */
  lemma BarePiecesParse(d: Dict<string>)
    requires WellFormed(d) && |d.keys| >= 1
    requires forall k :: k in d.values ==> Token(k) && Token(d.values[k])
    ensures ParsePieces(BarePieces(d)) == d
  {
    var pieces := BarePieces(d);
    BarePiecesStrip(d);
    PiecesRoundTrip(d, pieces, |pieces|);
    assert pieces[..|pieces|] == pieces;
    PrefixEnds(d);
  }

  /** Stripping the rendered list and splitting it at the commas gives the
      bare pieces. */
  lemma RenderedSplits(d: Dict<string>)
    requires WellFormed(d) && |d.keys| >= 1
    requires forall k :: k in d.values ==> Token(k) && Token(d.values[k])
    ensures var stripped := Strip(Join(",", RenderPieces(d)));
      stripped != "" && Split(stripped, ',') == BarePieces(d)
  {
    var pieces := BarePieces(d);
    var joined := Join(",", pieces);
    BarePiecesStrip(d);
    BarePiecesJoin(d);
    BarePiecesUnpadded(d);
    StripLeadingSpace(" ", joined);
    SplitJoin(pieces, ',');
  }

  /** The dependency list written by `RenderLine` parses back. */
  lemma DepsRoundTrip(d: Dict<string>)
    requires WellFormed(d)
    requires forall k :: k in d.values ==> Token(k) && Token(d.values[k])
    ensures ParseDeps(Strip(Join(",", RenderPieces(d)))) == d
  {
    if d.keys == [] {
      assert d.values == map[];
      StripUnpadded("");
    } else {
      RenderedSplits(d);
      BarePiecesParse(d);
    }
  }

  /** The rendered dependency list has no line break and does not end in
      a blank. */
  lemma RenderedDepsFacts(d: Dict<string>)
    requires WellFormed(d)
    requires forall k :: k in d.values ==> Token(k) && Token(d.values[k])
    ensures '\n' !in Join(",", RenderPieces(d))
    ensures Join(",", RenderPieces(d)) == [] || !IsSpace(Join(",", RenderPieces(d))[|Join(",", RenderPieces(d))| - 1])
  {
    var ps := RenderPieces(d);
    forall j | 0 <= j < |ps| ensures '\n' !in ps[j] {
      EntryFacts(d, j);
    }
    JoinAvoids(",", ps, '\n');
    if ps != [] {
      EntryFacts(d, |ps| - 1);
      JoinEnds(",", ps);
    }
  }

  /** A rendered line is non-empty, unpadded and free of line breaks. */
  lemma LineShape(package: string, d: Dict<string>)
    requires Token(package)
    requires WellFormed(d)
    requires forall k :: k in d.values ==> Token(k) && Token(d.values[k])
    ensures RenderLine(package, d) == package + [':'] + Join(",", RenderPieces(d))
    ensures Unpadded(RenderLine(package, d)) && RenderLine(package, d) != []
    ensures '\n' !in RenderLine(package, d)
  {
    var rest := Join(",", RenderPieces(d));
    var line := RenderLine(package, d);
    assert line == package + [':'] + rest;
    RenderedDepsFacts(d);
    assert line[0] == package[0];
    assert line[|line| - 1] == if rest == [] then ':' else rest[|rest| - 1];
  }

  /** A line written by `RenderLine` parses back to its package and
      dictionary. */
  lemma LineRoundTrip(package: string, d: Dict<string>)
    requires Token(package) && package[0] != '#'
    requires WellFormed(d)
    requires forall k :: k in d.values ==> Token(k) && Token(d.values[k])
    ensures ParseLine(RenderLine(package, d)) == Some((package, d))
  {
    var rest := Join(",", RenderPieces(d));
    var line := RenderLine(package, d);
    LineShape(package, d);
    StripUnpadded(line);
    SplitOnceAt(package, ':', rest);
    StripUnpadded(package);
    DepsRoundTrip(d);
  }

  /** One more rendered line adds its package. */
  lemma LinesStep(repo: Dict<Dict<string>>, lines: seq<string>, i: nat)
    requires Writable(repo) && |lines| == |repo.keys| && 0 < i <= |lines|
    requires lines[i - 1] == RenderLine(repo.keys[i - 1], repo.values[repo.keys[i - 1]])
    requires ParseLines(lines[..i - 1]) == Prefix(repo, i - 1)
    ensures ParseLines(lines[..i]) == Prefix(repo, i)
  {
    ParseLinesStep(lines, i - 1);
    var p := repo.keys[i - 1];
    assert p in repo.values;
    LineRoundTrip(p, repo.values[p]);
    PrefixStep(repo, i - 1);
  }

  /** Parsing the rendered lines in order rebuilds the first `i` packages. */
  lemma {:induction false} LinesRoundTrip(repo: Dict<Dict<string>>, lines: seq<string>, i: nat)
    requires Writable(repo) && lines == RenderedLines(repo) && i <= |lines|
    ensures ParseLines(lines[..i]) == Prefix(repo, i)
    decreases i
  {
    if i == 0 {
      PrefixEnds(repo);
      assert lines[..0] == [];
    } else {
      LinesRoundTrip(repo, lines, i - 1);
      LinesStep(repo, lines, i);
    }
  }

  /** No rendered line holds a line break. */
  lemma RenderedLinesUnbroken(repo: Dict<Dict<string>>)
    requires Writable(repo)
    ensures forall j :: 0 <= j < |RenderedLines(repo)| ==> '\n' !in RenderedLines(repo)[j]
  {
    var lines := RenderedLines(repo);
    forall j | 0 <= j < |lines| ensures '\n' !in lines[j] {
      var p := repo.keys[j];
      assert p in repo.values;
      LineShape(p, repo.values[p]);
    }
  }

  /** Each rendered line is non-empty and has no blank at either end. */
  lemma RenderedLineShape(repo: Dict<Dict<string>>, j: nat)
    requires Writable(repo) && j < |repo.keys|
    ensures RenderedLines(repo)[j] != [] && Unpadded(RenderedLines(repo)[j])
  {
    var p := repo.keys[j];
    assert p in repo.values;
    LineShape(p, repo.values[p]);
  }

  /** A non-empty rendering has no blank at either end. */
  lemma RenderUnpadded(repo: Dict<Dict<string>>)
    requires Writable(repo) && repo.keys != []
    ensures Strip(Render(repo)) == Render(repo)
  {
    var lines := RenderedLines(repo);
    RenderedLineShape(repo, 0);
    RenderedLineShape(repo, |repo.keys| - 1);
    JoinUnpadded("\n", lines);
    StripUnpadded(Render(repo));
  }

  /** An empty file loads as an empty repository. */
  lemma EmptyText()
    ensures ParseText(Strip("")) == Empty()
  {
    StripUnpadded("");
    assert Split("", '\n') == [""];
    assert [""][..0] == [];
  }

  /** Loading a file written in the documented format gives back the
      repository that was written. */
  lemma RoundTrip(repo: Dict<Dict<string>>)
    requires Writable(repo)
    ensures ParseText(Strip(Render(repo))) == repo
  {
    var lines := RenderedLines(repo);
    PrefixEnds(repo);
    if lines == [] {
      assert repo.values == map[];
      EmptyText();
    } else {
      RenderUnpadded(repo);
      RenderedLinesUnbroken(repo);
      SplitJoin(lines, '\n');
      LinesRoundTrip(repo, lines, |lines|);
      assert lines[..|lines|] == lines;
    }
  }

  // ---------------------------------------------------------------------
  // The loader object

  class TestRepositoryLoader {
    const filePath: string
    var repository: Dict<Dict<string>>

    /** Loading: the whole file content is stripped and parsed. */
    constructor(filePath: string, content: string)
      ensures this.filePath == filePath
      ensures repository == ParseText(Strip(content))
    {
      this.filePath := filePath;
      var parsed := ParseTextFormat(Strip(content));
      repository := parsed;
    }

    /** `get_dependencies(name, version)`: the version is ignored; an
        unknown name has no dependencies. */
    method GetDependencies(packageName: string, version: string) returns (r: Dict<string>)
      ensures packageName !in repository.values ==> r.keys == [] && r.values == map[]
      ensures packageName in repository.values ==> r == repository.values[packageName]
    {
      if packageName !in repository.values {
        return Empty();
      }
      r := repository.values[packageName];
    }

    /** `create_dependency_getter`: a source that never fails and answers
        every name with the keys of `get_dependencies(name)`, in order. */
    method CreateDependencyGetter() returns (src: Source)
      ensures src.failing == {}
      ensures forall p :: Fetch(src, p) == Some(Lookup(repository, p).keys)
    {
      src := Source(map p | p in repository.values :: repository.values[p].keys, {});
    }
  }
}
