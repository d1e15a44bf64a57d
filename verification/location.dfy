/** The two small parsers of `CREATE EXTERNAL TABLE` (src/table.rs, `split_location` and `parse_sort`). */
module Location {
  import opened Prelude
  import opened Table

  // ----- The library functions they are made of

  /** Unicode `White_Space`. */
  predicate IsSpace(c: char) {
    || '\U{0009}' <= c <= '\U{000D}' || c == ' ' || c == '\U{0085}' || c == '\U{00A0}' || c == '\U{1680}'
    || '\U{2000}' <= c <= '\U{200A}' || c == '\U{2028}' || c == '\U{2029}' || c == '\U{202F}' || c == '\U{205F}'
    || c == '\U{3000}'
  }

  function TrimStart(s: string): string {
    if s != [] && IsSpace(s[0]) then TrimStart(s[1..]) else s
  }

  function TrimEnd(s: string): string {
    if s != [] && IsSpace(s[|s| - 1]) then TrimEnd(s[..|s| - 1]) else s
  }

  function Trim(s: string): string {
    TrimStart(TrimEnd(s))
  }

  function TrimEndSlashes(s: string): string {
    if s != [] && s[|s| - 1] == '/' then TrimEndSlashes(s[..|s| - 1]) else s
  }

  /** The text before and after the last `c`. */
  function RsplitOnce(s: string, c: char): Option<(string, string)> {
    if s == [] then None
    else if s[|s| - 1] == c then Some((s[..|s| - 1], []))
    else match RsplitOnce(s[..|s| - 1], c)
      case None => None
      case Some((a, b)) => Some((a, b + [s[|s| - 1]]))
  }

  /** The pieces between the `c`s; there is always at least one. */
  function Split(s: string, c: char): (pieces: seq<string>)
    ensures pieces != []
  {
    if s == [] then [[]]
    else
      var rest := Split(s[1..], c);
      if s[0] == c then [[]] + rest else [[s[0]] + rest[0]] + rest[1..]
  }

  /** Rust's `str::contains`. */
  predicate Contains(s: string, part: string) {
    part <= s || (s != [] && Contains(s[1..], part))
  }

  predicate EndsWith(s: string, c: char) {
    s != [] && s[|s| - 1] == c
  }

  // ----- split_location

  datatype PlanError = BadLocation(location: string) | BadDirection(direction: string)

  function SplitLocation(location: string): Result<(string, string), PlanError> {
    match RsplitOnce(TrimEndSlashes(location), '/')
    case None => Err(BadLocation(location))
    case Some((base, index)) =>
      if !Contains(base, "://") || index == [] || EndsWith(base, ':') || EndsWith(base, '/')
      then Err(BadLocation(location))
      else Ok((base, index))
  }

  function Slashes(k: nat): string {
    seq(k, _ => '/')
  }

  // ----- parse_sort

  function ParseEntry(s: string): Result<SortField, PlanError> {
    match RsplitOnce(s, ':')
    case None => Ok(SortField(s, true))
    case Some((f, dir)) =>
      if dir == "asc" then Ok(SortField(Trim(f), true))
      else if dir == "desc" then Ok(SortField(Trim(f), false))
      else Err(BadDirection(dir))
  }

  /** Blank pieces are dropped; the first bad direction ends the parse. */
  function ParsePieces(pieces: seq<string>): Result<seq<SortField>, PlanError> {
    if pieces == [] then Ok([])
    else
      var s := Trim(pieces[0]);
      if s == [] then ParsePieces(pieces[1..])
      else match ParseEntry(s)
        case Err(e) => Err(e)
        case Ok(entry) =>
          match ParsePieces(pieces[1..])
          case Err(e) => Err(e)
          case Ok(entries) => Ok([entry] + entries)
  }

  function Entries(spec: string): seq<string> {
    Split(spec, ',')
  }

  function ParseSort(spec: string): Result<seq<SortField>, PlanError> {
    ParsePieces(Entries(spec))
  }

  // ----- What the library functions mean

  lemma {:induction false} RsplitOnceAt(a: string, c: char, b: string)
    requires c !in b
    ensures RsplitOnce(a + [c] + b, c) == Some((a, b))
    decreases |b|
  {
    var s := a + [c] + b;
    if b == [] {
      assert s[..|s| - 1] == a;
    } else {
      var b' := b[..|b| - 1];
      assert s[..|s| - 1] == a + [c] + b';
      RsplitOnceAt(a, c, b');
      assert b == b' + [s[|s| - 1]];
    }
  }

  lemma {:induction false} RsplitOnceParts(s: string, c: char)
    ensures RsplitOnce(s, c).None? <==> c !in s
    ensures RsplitOnce(s, c).Some? ==>
              var (a, b) := RsplitOnce(s, c).value;
              s == a + [c] + b && c !in b
  {
    if s != [] {
      var init, last := s[..|s| - 1], s[|s| - 1];
      assert s == init + [last];
      RsplitOnceParts(init, c);
    }
  }

  lemma {:induction false} TrimEndSlashesParts(s: string)
    ensures !EndsWith(TrimEndSlashes(s), '/')
    ensures |TrimEndSlashes(s)| <= |s| && s == TrimEndSlashes(s) + Slashes(|s| - |TrimEndSlashes(s)|)
  {
    if EndsWith(s, '/') {
      var init := s[..|s| - 1];
      TrimEndSlashesParts(init);
      assert s == init + ['/'];
      var k := |init| - |TrimEndSlashes(init)|;
      assert Slashes(k) + ['/'] == Slashes(k + 1);
    } else {
      assert Slashes(0) == [];
    }
  }

  lemma {:induction false} TrimEndSlashesOf(s: string, k: nat)
    requires !EndsWith(s, '/')
    ensures TrimEndSlashes(s + Slashes(k)) == s
    decreases k
  {
    if k == 0 {
      assert s + Slashes(0) == s;
    } else {
      var t := s + Slashes(k);
      assert t[..|t| - 1] == s + Slashes(k - 1);
      TrimEndSlashesOf(s, k - 1);
    }
  }

  lemma {:induction false} ContainedAt(s: string, part: string) returns (a: string, b: string)
    requires Contains(s, part)
    ensures s == a + part + b
  {
    if part <= s {
      a, b := [], s[|part|..];
    } else {
      a, b := ContainedAt(s[1..], part);
      assert s == [s[0]] + s[1..];
      a := [s[0]] + a;
    }
  }

  lemma {:induction false} FoundIsContained(a: string, part: string, b: string)
    ensures Contains(a + part + b, part)
    decreases |a|
  {
    var s := a + part + b;
    if a == [] {
      assert s[..|part|] == part;
    } else {
      assert s[1..] == a[1..] + part + b;
      FoundIsContained(a[1..], part, b);
    }
  }

  lemma ContainsIff(s: string, part: string)
    ensures Contains(s, part) <==> exists a, b :: s == a + part + b
  {
    if Contains(s, part) {
      var a, b := ContainedAt(s, part);
    }
    if a, b :| s == a + part + b {
      FoundIsContained(a, part, b);
    }
  }

  /** The 25 blanks of Unicode, by code point. */
  lemma BlankCharacters(c: char)
    ensures IsSpace(c) <==>
            c as int in {0x09, 0x0A, 0x0B, 0x0C, 0x0D, 0x20, 0x85, 0xA0, 0x1680, 0x2000, 0x2001, 0x2002, 0x2003, 0x2004,
                         0x2005, 0x2006, 0x2007, 0x2008, 0x2009, 0x200A, 0x2028, 0x2029, 0x202F, 0x205F, 0x3000}
  {
  }

  /** Trimming takes the blanks off both ends and nothing else. */
  lemma TrimIs(s: string) returns (lead: string, trail: string)
    ensures s == lead + Trim(s) + trail && Blank(lead) && Blank(trail) && Trimmed(Trim(s))
  {
    trail := TrimEndParts(s);
    lead := TrimStartParts(TrimEnd(s));
    if Trim(s) != [] {
      assert TrimEnd(s)[|TrimEnd(s)| - 1] == Trim(s)[|Trim(s)| - 1];
    }
  }

  lemma {:induction false} TrimStartParts(s: string) returns (lead: string)
    ensures s == lead + TrimStart(s) && Blank(lead)
    ensures TrimStart(s) != [] ==> !IsSpace(TrimStart(s)[0])
  {
    lead := [];
    if s != [] && IsSpace(s[0]) {
      lead := TrimStartParts(s[1..]);
      lead := [s[0]] + lead;
      assert s == [s[0]] + s[1..];
    }
  }

  lemma {:induction false} TrimEndParts(s: string) returns (trail: string)
    ensures s == TrimEnd(s) + trail && Blank(trail)
    ensures TrimEnd(s) != [] ==> !IsSpace(TrimEnd(s)[|TrimEnd(s)| - 1])
  {
    trail := [];
    if s != [] && IsSpace(s[|s| - 1]) {
      trail := TrimEndParts(s[..|s| - 1]);
      trail := trail + [s[|s| - 1]];
      assert s == s[..|s| - 1] + [s[|s| - 1]];
    }
  }

  /** A blank entry counts for nothing. */
  lemma {:induction false} BlankEntryIsDropped(pieces: seq<string>, i: nat)
    requires i < |pieces| && Trim(pieces[i]) == []
    ensures ParsePieces(pieces) == ParsePieces(pieces[..i] + pieces[i + 1..])
    decreases |pieces|
  {
    var less := pieces[..i] + pieces[i + 1..];
    if i == 0 {
      assert less == pieces[1..];
    } else {
      BlankEntryIsDropped(pieces[1..], i - 1);
      assert less[0] == pieces[0] && less[1..] == pieces[1..][..i - 1] + pieces[1..][i..];
    }
  }

  // ----- Parsing undoes printing

  /** A location is accepted as `(base, index)` if and only if it reads `base/index` with any number
      of slashes after it, where `base` has a `://` in it and does not end in `:` or `/`, and `index` is one
      non-empty path segment. Any other location is named in the error. */
  lemma SplitLocationIff(location: string, base: string, index: string)
    ensures SplitLocation(location) == Ok((base, index)) <==>
            && (exists a, b :: base == a + "://" + b)
            && base[|base| - 1] != ':' && base[|base| - 1] != '/'
            && index != [] && '/' !in index
            && exists k: nat :: location == base + "/" + index + Slashes(k)
    ensures SplitLocation(location).Err? ==> SplitLocation(location).error == BadLocation(location)
  {
    var trimmed := TrimEndSlashes(location);
    TrimEndSlashesParts(location);
    RsplitOnceParts(trimmed, '/');
    ContainsIff(base, "://");
    if SplitLocation(location) == Ok((base, index)) {
      assert location == base + "/" + index + Slashes(|location| - |trimmed|);
    }
    if k: nat :| location == base + "/" + index + Slashes(k) && index != [] && '/' !in index {
      assert !EndsWith(base + "/" + index, '/');
      TrimEndSlashesOf(base + "/" + index, k);
      RsplitOnceAt(base, '/', index);
    }
  }

  /** One printed sort entry: blanks, the field, blanks, `:` and a direction, blanks. Without a
      direction the field stands alone. */
  datatype Printed = Printed(lead: string, field: string, mid: string, direction: Option<bool>, trail: string)

  predicate Blank(s: string) {
    forall c :: c in s ==> IsSpace(c)
  }

  predicate Trimmed(s: string) {
    s == [] || (!IsSpace(s[0]) && !IsSpace(s[|s| - 1]))
  }

  /** Fields are trimmed and free of commas; a field that stands alone is also non-empty and free of
      colons. */
  predicate Printable(p: Printed) {
    && Blank(p.lead) && Blank(p.mid) && Blank(p.trail)
    && Trimmed(p.field) && ',' !in p.field
    && (p.direction.None? ==> p.field != [] && ':' !in p.field && p.mid == [])
  }

  function Direction(ascending: bool): string {
    if ascending then "asc" else "desc"
  }

  function Core(p: Printed): string {
    p.field + p.mid + if p.direction.Some? then ":" + Direction(p.direction.value) else ""
  }

  function PrintEntry(p: Printed): string {
    p.lead + Core(p) + p.trail
  }

  function PrintSort(ps: seq<Printed>): string {
    if ps == [] then [] else if |ps| == 1 then PrintEntry(ps[0]) else PrintEntry(ps[0]) + "," + PrintSort(ps[1..])
  }

  function Meant(p: Printed): SortField {
    SortField(p.field, p.direction.Some? ==> p.direction.value)
  }

  lemma {:induction false} TrimStartBlank(b: string, s: string)
    requires Blank(b)
    ensures TrimStart(b + s) == TrimStart(s)
  {
    if b == [] {
      assert b + s == s;
    } else {
      assert IsSpace(b[0]);
      assert (b + s)[1..] == b[1..] + s;
      TrimStartBlank(b[1..], s);
    }
  }

  lemma {:induction false} TrimEndBlank(s: string, b: string)
    requires Blank(b)
    ensures TrimEnd(s + b) == TrimEnd(s)
    decreases |b|
  {
    if b == [] {
      assert s + b == s;
    } else {
      assert IsSpace(b[|b| - 1]);
      assert (s + b)[..|s + b| - 1] == s + b[..|b| - 1];
      TrimEndBlank(s, b[..|b| - 1]);
    }
  }

  lemma TrimPadded(lead: string, s: string, trail: string)
    requires Blank(lead) && Blank(trail)
    requires s == [] || !IsSpace(s[|s| - 1])
    ensures Trim(lead + s + trail) == TrimStart(s)
  {
    TrimEndBlank(lead + s, trail);
    if s == [] {
      assert lead + s == [] + lead;
      TrimEndBlank([], lead);
    } else {
      assert (lead + s)[|lead + s| - 1] == s[|s| - 1];
      TrimStartBlank(lead, s);
    }
  }

  lemma CoreParses(p: Printed)
    requires Printable(p) && p.direction.Some?
    ensures TrimStart(Core(p)) != [] && ParseEntry(TrimStart(Core(p))) == Ok(Meant(p))
  {
    var dir := Direction(p.direction.value);
    if p.field == [] {
      assert Core(p) == p.mid + (":" + dir);
      TrimStartBlank(p.mid, ":" + dir);
      assert ":" + dir == [] + [':'] + dir;
      RsplitOnceAt([], ':', dir);
    } else {
      var head := p.field + p.mid;
      assert Core(p) == head + [':'] + dir;
      RsplitOnceAt(head, ':', dir);
      TrimPadded([], p.field, p.mid);
      assert [] + p.field + p.mid == head;
      assert Trim(head) == p.field;
    }
  }

  lemma EntryRoundTrip(p: Printed)
    requires Printable(p)
    ensures Trim(PrintEntry(p)) != [] && ParseEntry(Trim(PrintEntry(p))) == Ok(Meant(p))
  {
    TrimPadded(p.lead, Core(p), p.trail);
    if p.direction.None? {
      assert Core(p) == p.field;
      RsplitOnceParts(p.field, ':');
    } else {
      CoreParses(p);
    }
  }

  lemma {:induction false} SplitFirst(a: string, c: char, rest: string)
    requires c !in a
    ensures Split(a, c) == [a]
    ensures Split(a + [c] + rest, c) == [a] + Split(rest, c)
  {
    var s := a + [c] + rest;
    if a == [] {
      assert s[1..] == rest;
    } else {
      assert s[1..] == a[1..] + [c] + rest;
      SplitFirst(a[1..], c, rest);
      assert a == [a[0]] + a[1..];
    }
  }

  lemma FirstPiece(p: Printed, pieces: seq<string>, entries: seq<SortField>)
    requires Printable(p) && ParsePieces(pieces) == Ok(entries)
    ensures ParsePieces([PrintEntry(p)] + pieces) == Ok([Meant(p)] + entries)
  {
    EntryRoundTrip(p);
    assert ([PrintEntry(p)] + pieces)[1..] == pieces;
  }

  function AllMeant(ps: seq<Printed>): seq<SortField> {
    if ps == [] then [] else [Meant(ps[0])] + AllMeant(ps[1..])
  }

  lemma NoCommaInEntry(p: Printed)
    requires Printable(p)
    ensures ',' !in PrintEntry(p)
  {
  }

  /** Printing any list of sort fields, with any blanks around them and colons inside them, and
      parsing the text returns the list. */
  lemma {:induction false} SortRoundTrip(ps: seq<Printed>)
    requires forall p :: p in ps ==> Printable(p)
    ensures ParseSort(PrintSort(ps)) == Ok(AllMeant(ps))
  {
    if ps == [] {
      assert Trim([]) == [];
    } else {
      var text := PrintEntry(ps[0]);
      NoCommaInEntry(ps[0]);
      if |ps| == 1 {
        SplitFirst(text, ',', []);
        assert [text] == [text] + [];
        FirstPiece(ps[0], [], []);
      } else {
        SortRoundTrip(ps[1..]);
        SplitFirst(text, ',', PrintSort(ps[1..]));
        assert PrintSort(ps) == text + [','] + PrintSort(ps[1..]);
        FirstPiece(ps[0], Split(PrintSort(ps[1..]), ','), AllMeant(ps[1..]));
      }
    }
  }

  function Join(pieces: seq<string>, c: char): string
    requires pieces != []
  {
    if |pieces| == 1 then pieces[0] else pieces[0] + [c] + Join(pieces[1..], c)
  }

  lemma {:induction false} SplitParts(s: string, c: char)
    ensures Join(Split(s, c), c) == s
    ensures forall i :: 0 <= i < |Split(s, c)| ==> c !in Split(s, c)[i]
  {
    if s != [] {
      SplitParts(s[1..], c);
      var rest, all := Split(s[1..], c), Split(s, c);
      if s[0] == c {
        assert all[1..] == rest;
        assert s == [] + [c] + s[1..];
      } else {
        assert all[1..] == rest[1..];
        assert forall i :: 0 < i < |all| ==> all[i] == rest[i];
        assert s == [s[0]] + s[1..];
      }
    }
  }

  /** An entry that ends in a colon and something other than a direction. */
  predicate BadEntry(piece: string, dir: string) {
    && ':' !in dir && dir != "asc" && dir != "desc"
    && |Trim(piece)| > |dir|
    && Trim(piece)[|Trim(piece)| - |dir| - 1..] == [':'] + dir
  }

  lemma BadEntryFails(piece: string, dir: string)
    requires BadEntry(piece, dir)
    ensures ParseEntry(Trim(piece)) == Err(BadDirection(dir))
  {
    var s := Trim(piece);
    var k := |s| - |dir| - 1;
    assert s == s[..k] + [':'] + dir;
    RsplitOnceAt(s[..k], ':', dir);
  }

  lemma FailedEntryIsBad(piece: string)
    requires ParseEntry(Trim(piece)).Err?
    ensures var e := ParseEntry(Trim(piece)).error; e.BadDirection? && BadEntry(piece, e.direction)
  {
    RsplitOnceParts(Trim(piece), ':');
  }

  /** The first bad entry is the `i`th, and this is what it ends in. */
  predicate FirstBad(pieces: seq<string>, i: nat, dir: string) {
    && i < |pieces| && BadEntry(pieces[i], dir)
    && forall j :: 0 <= j < i ==> ParseEntry(Trim(pieces[j])).Ok?
  }

  lemma {:induction false} PiecesFailIff(pieces: seq<string>, dir: string)
    ensures ParsePieces(pieces) == Err(BadDirection(dir)) <==> exists i: nat :: FirstBad(pieces, i, dir)
  {
    if pieces != [] {
      var rest := pieces[1..];
      PiecesFailIff(rest, dir);
      if ParseEntry(Trim(pieces[0])).Err? {
        FailedEntryIsBad(pieces[0]);
      }
      if BadEntry(pieces[0], dir) {
        BadEntryFails(pieces[0], dir);
        assert FirstBad(pieces, 0, dir);
      }
      if i: nat :| FirstBad(rest, i, dir) && ParseEntry(Trim(pieces[0])).Ok? {
        assert FirstBad(pieces, i + 1, dir);
      }
      if i: nat :| FirstBad(pieces, i, dir) && i > 0 {
        assert forall j :: 0 <= j < |rest| ==> rest[j] == pieces[j + 1];
        assert FirstBad(rest, i - 1, dir);
      }
    }
  }

  /** A sort is refused if and only if some entry ends in something other than a direction, and the first
      such entry is the one reported. */
  lemma SortRefusedIff(spec: string, dir: string)
    ensures ParseSort(spec) == Err(BadDirection(dir)) <==> exists i: nat :: FirstBad(Entries(spec), i, dir)
  {
    PiecesFailIff(Entries(spec), dir);
  }
}
