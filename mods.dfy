/** The gameplay-modifier flag set `OsuMods` and its three text codecs: the
    encoder `to_string`, the lenient chunked decoder `from_str` (built on the
    `cut` splitter) and the strict wire decoder (`visit_str`, `visit_seq`). */
module Mods {
  import opened Wrappers
  import opened Errors

  /** A set of modifiers as the bits of a `u32`. */
  type OsuMods = bv32

  const NOMOD: OsuMods := 0
  const NOFAIL: OsuMods := 1
  const EASY: OsuMods := 2
  const TOUCHDEVICE: OsuMods := 4
  const HIDDEN: OsuMods := 8
  const HARDROCK: OsuMods := 16
  const SUDDENDEATH: OsuMods := 32
  const DOUBLETIME: OsuMods := 64
  const RELAX: OsuMods := 128
  const HALFTIME: OsuMods := 256
  /** An alias that sets two bits: its own (512) and DOUBLETIME's. */
  const NIGHTCORE: OsuMods := 512 | DOUBLETIME
  const FLASHLIGHT: OsuMods := 1024
  const SPUNOUT: OsuMods := 4096
  /** An alias that sets two bits: its own (16384) and SUDDENDEATH's. */
  const PERFECT: OsuMods := 16384 | SUDDENDEATH
  const FADEIN: OsuMods := 1048576
  const SCOREV2: OsuMods := 536870912
  const MIRROR: OsuMods := 1073741824

  /** `contains` tests the whole bit pattern of `flags`, so an alias is contained
      only when both of its bits are set. */
  predicate Contains(m: OsuMods, flags: OsuMods)
  {
    m & flags == flags
  }

  /** The union of two flag sets, as `|` and `|=` compute it. */
  function Or(a: OsuMods, b: OsuMods): OsuMods
  {
    a | b
  }

  lemma OrBounds(a: OsuMods, b: OsuMods)
    ensures Contains(Or(a, b), a) && Contains(Or(a, b), b)
  {
  }

  lemma OrLeast(a: OsuMods, b: OsuMods, u: OsuMods)
    requires Contains(u, a) && Contains(u, b)
    ensures Contains(u, Or(a, b))
  {
  }

  lemma ContainsTrans(a: OsuMods, b: OsuMods, c: OsuMods)
    requires Contains(a, b) && Contains(b, c)
    ensures Contains(a, c)
  {
  }

  function Flatten(parts: seq<string>): string
  {
    if parts == [] then [] else Flatten(parts[..|parts| - 1]) + parts[|parts| - 1]
  }

  lemma {:induction false} FlattenAppend(a: seq<string>, b: seq<string>)
    ensures Flatten(a + b) == Flatten(a) + Flatten(b)
    decreases |b|
  {
    if b == [] {
      assert a + b == a;
    } else {
      var last := |b| - 1;
      assert (a + b)[..|a + b| - 1] == a + b[..last];
      FlattenAppend(a, b[..last]);
    }
  }

  lemma FlattenCons(x: string, rest: seq<string>)
    ensures Flatten([x] + rest) == x + Flatten(rest)
  {
    FlattenAppend([x], rest);
    assert [x][..0] == [];
  }

  // ---------------------------------------------------------------------------
  // cut: the fixed-size chunk splitter
  // ---------------------------------------------------------------------------

  /** The chunks `cut(s, n)` yields: the first `n` characters, then the rest cut
      the same way; a last chunk shorter than `n` holds what is left. */
  function Chunks(s: string, n: nat): seq<string>
    requires 1 <= n
    decreases |s|
  {
    if s == [] then []
    else if |s| <= n then [s]
    else [s[..n]] + Chunks(s[n..], n)
  }

  /** Gluing the chunks back together gives the input; every chunk is non-empty
      and at most `n` long, and every chunk but the last is exactly `n` long. */
  lemma {:induction false} ChunksPartition(s: string, n: nat)
    requires 1 <= n
    ensures Flatten(Chunks(s, n)) == s
    ensures forall i :: 0 <= i < |Chunks(s, n)| ==> 1 <= |Chunks(s, n)[i]| <= n
    ensures forall i :: 0 <= i < |Chunks(s, n)| - 1 ==> |Chunks(s, n)[i]| == n
    ensures s == [] <==> Chunks(s, n) == []
    decreases |s|
  {
    if s == [] {
    } else if |s| <= n {
      assert Flatten([s]) == Flatten([]) + s;
    } else {
      ChunksPartition(s[n..], n);
      FlattenCons(s[..n], Chunks(s[n..], n));
      assert s[..n] + s[n..] == s;
    }
  }

  /** Cutting a text made of whole `n`-character pieces gives those pieces back. */
  lemma {:induction false} ChunksOfFlatten(parts: seq<string>, n: nat)
    requires 1 <= n
    requires forall i :: 0 <= i < |parts| ==> |parts[i]| == n
    ensures Chunks(Flatten(parts), n) == parts
    decreases |parts|
  {
    if parts != [] {
      var rest := parts[1..];
      FlattenCons(parts[0], rest);
      assert [parts[0]] + rest == parts;
      ChunksOfFlatten(rest, n);
      var s := Flatten(parts);
      assert s == parts[0] + Flatten(rest);
      if |s| <= n {
        assert Flatten(rest) == [];
        assert rest == Chunks([], n);
        assert s == parts[0];
      } else {
        assert s[..n] == parts[0];
        assert s[n..] == Flatten(rest);
      }
    }
  }

  /** When the first text has even length, cutting a concatenation into pairs
      is cutting each part. */
  lemma {:induction false} ChunksAppend(s: string, t: string)
    requires |s| % 2 == 0
    ensures Chunks(s + t, 2) == Chunks(s, 2) + Chunks(t, 2)
    decreases |s|
  {
    if s == [] {
      assert s + t == t;
    } else if |s| == 2 {
      assert Chunks(s, 2) == [s];
      if t == [] {
        assert s + t == s;
      } else {
        assert (s + t)[..2] == s;
        assert (s + t)[2..] == t;
      }
    } else {
      var rest := s[2..];
      assert (s + t)[..2] == s[..2];
      assert (s + t)[2..] == rest + t;
      ChunksAppend(rest, t);
    }
  }

  /** `cut`: an iterator whose closure keeps the unread rest in `source` and
      hands out the next `n` characters (or all that is left) each time. */
  method Cut(s: string, n: nat) returns (chunks: seq<string>)
    requires 1 <= n
    ensures chunks == Chunks(s, n)
  {
    var source := s;
    chunks := [];
    while source != []
      invariant chunks + Chunks(source, n) == Chunks(s, n)
      decreases |source|
    {
      var endIdx := if |source| < n then |source| else n;
      var split, rest := source[..endIdx], source[endIdx..];
      if |source| <= n {
        assert rest == [] && split == source;
        assert Chunks(source, n) == [split] + Chunks(rest, n);
      }
      source := rest;
      chunks := chunks + [split];
    }
    assert Chunks(source, n) == [];
  }

  // ---------------------------------------------------------------------------
  // The acronym table shared by both decoders
  // ---------------------------------------------------------------------------

  /** The flags an acronym names in `from_str` and in `visit_str` (the two match
      the same fifteen strings); None for any other string. "MR" is not among them. */
  function AcronymFlags(a: string): Option<OsuMods>
  {
    if |a| != 2 then None
    else match (a[0], a[1])
      case ('N', 'M') => Some(NOMOD)
      case ('N', 'F') => Some(NOFAIL)
      case ('E', 'Z') => Some(EASY)
      case ('T', 'D') => Some(TOUCHDEVICE)
      case ('H', 'D') => Some(HIDDEN)
      case ('H', 'R') => Some(HARDROCK)
      case ('S', 'D') => Some(SUDDENDEATH)
      case ('D', 'T') => Some(DOUBLETIME)
      case ('R', 'X') => Some(RELAX)
      case ('H', 'T') => Some(HALFTIME)
      case ('N', 'C') => Some(NIGHTCORE)
      case ('F', 'L') => Some(FLASHLIGHT)
      case ('S', 'O') => Some(SPUNOUT)
      case ('P', 'F') => Some(PERFECT)
      case ('F', 'D') => Some(FADEIN)
      case _ => None
  }

  /** What one chunk adds in `from_str`: an unknown chunk adds nothing. */
  function ChunkFlags(a: string): OsuMods
  {
    match AcronymFlags(a)
    case Some(f) => f
    case None => NOMOD
  }

  /** The flags `from_str` accumulates over a sequence of chunks, in order. */
  function Union(chunks: seq<string>): OsuMods
  {
    if chunks == [] then NOMOD
    else Or(Union(chunks[..|chunks| - 1]), ChunkFlags(chunks[|chunks| - 1]))
  }

  lemma {:induction false} UnionAppend(a: seq<string>, b: seq<string>)
    ensures Union(a + b) == Union(a) | Union(b)
    decreases |b|
  {
    if b == [] {
      assert a + b == a;
    } else {
      var last := |b| - 1;
      assert (a + b)[..|a + b| - 1] == a + b[..last];
      assert (a + b)[|a + b| - 1] == b[last];
      UnionAppend(a, b[..last]);
    }
  }

  // ---------------------------------------------------------------------------
  // Encoder: to_string
  // ---------------------------------------------------------------------------

  /** One position of the encoder's fixed acronym order. `Speed` is the position
      that writes "NC" for the whole NIGHTCORE pattern and "DT" for DOUBLETIME alone. */
  datatype Slot = Single(flag: OsuMods, acronym: string) | Speed

  const SlotCount: nat := 12

  /** The encoder's order: NF, EZ, TD, HD, NC|DT, HT, FL, HR, SD, SO, PF, MR. */
  function SlotAt(k: nat): Slot
    requires k < SlotCount
  {
    match k
    case 0 => Single(NOFAIL, "NF")
    case 1 => Single(EASY, "EZ")
    case 2 => Single(TOUCHDEVICE, "TD")
    case 3 => Single(HIDDEN, "HD")
    case 4 => Speed
    case 5 => Single(HALFTIME, "HT")
    case 6 => Single(FLASHLIGHT, "FL")
    case 7 => Single(HARDROCK, "HR")
    case 8 => Single(SUDDENDEATH, "SD")
    case 9 => Single(SPUNOUT, "SO")
    case 10 => Single(PERFECT, "PF")
    case _ => Single(MIRROR, "MR")
  }

  /** The acronym position `slot` writes for `m`, if any. */
  function SlotAcronym(m: OsuMods, slot: Slot): Option<string>
  {
    match slot
    case Single(flag, acronym) => if Contains(m, flag) then Some(acronym) else None
    case Speed =>
      if !Contains(m, DOUBLETIME) then None
      else if Contains(m, NIGHTCORE) then Some("NC") else Some("DT")
  }

  /** The acronyms the first `k` positions of the order write for `m`. */
  function EmittedUpTo(m: OsuMods, k: nat): seq<string>
    requires k <= SlotCount
  {
    if k == 0 then [] else AppendSome(EmittedUpTo(m, k - 1), SlotAcronym(m, SlotAt(k - 1)))
  }

  /** `xs` with the acronym in `o` appended, if there is one. */
  function AppendSome(xs: seq<string>, o: Option<string>): seq<string>
  {
    match o
    case None => xs
    case Some(a) => xs + [a]
  }

  /** The text the first `k` positions of the order write for `m`. */
  function EncodedUpTo(m: OsuMods, k: nat): string
    requires k <= SlotCount
  {
    if k == 0 then []
    else match SlotAcronym(m, SlotAt(k - 1))
      case None => EncodedUpTo(m, k - 1)
      case Some(a) => EncodedUpTo(m, k - 1) + a
  }

  /** The acronyms `to_string` writes, in order: "NM" alone for the empty set. */
  function Emitted(m: OsuMods): seq<string>
  {
    if m == NOMOD then ["NM"] else EmittedUpTo(m, SlotCount)
  }

  /** The text `to_string` returns. */
  function Encode(m: OsuMods): string
  {
    if m == NOMOD then "NM" else EncodedUpTo(m, SlotCount)
  }

  lemma FlattenSnoc(xs: seq<string>, a: string)
    ensures Flatten(xs + [a]) == Flatten(xs) + a
  {
    assert (xs + [a])[..|xs|] == xs;
  }

  lemma {:induction false} EncodedUpToFlattens(m: OsuMods, k: nat)
    requires k <= SlotCount
    ensures EncodedUpTo(m, k) == Flatten(EmittedUpTo(m, k))
  {
    if k > 0 {
      var before := EmittedUpTo(m, k - 1);
      EncodedUpToFlattens(m, k - 1);
      match SlotAcronym(m, SlotAt(k - 1))
      case None =>
        assert EmittedUpTo(m, k) == before;
      case Some(a) =>
        assert EmittedUpTo(m, k) == before + [a];
        FlattenSnoc(before, a);
    }
  }

  /** The text is the acronyms written one after the other. */
  lemma EncodeFlattensEmitted(m: OsuMods)
    ensures Encode(m) == Flatten(Emitted(m))
  {
    if m == NOMOD {
      assert Flatten(["NM"]) == Flatten([]) + "NM";
    } else {
      EncodedUpToFlattens(m, SlotCount);
    }
  }

  /** The position of an acronym in the encoder's order (DT and NC share one);
      -1 for a string the encoder never writes. */
  function Position(a: string): int
  {
    if |a| != 2 then -1
    else match (a[0], a[1])
      case ('N', 'F') => 0
      case ('E', 'Z') => 1
      case ('T', 'D') => 2
      case ('H', 'D') => 3
      case ('D', 'T') => 4
      case ('N', 'C') => 4
      case ('H', 'T') => 5
      case ('F', 'L') => 6
      case ('H', 'R') => 7
      case ('S', 'D') => 8
      case ('S', 'O') => 9
      case ('P', 'F') => 10
      case ('M', 'R') => 11
      case _ => -1
  }

  lemma SlotPositions(m: OsuMods, k: nat)
    requires k < SlotCount
    ensures SlotAcronym(m, SlotAt(k)).Some? ==>
              Position(SlotAcronym(m, SlotAt(k)).value) == k && |SlotAcronym(m, SlotAt(k)).value| == 2
  {
    match k
    case 0 => assert Position("NF") == 0;
    case 1 => assert Position("EZ") == 1;
    case 2 => assert Position("TD") == 2;
    case 3 => assert Position("HD") == 3;
    case 4 => assert Position("DT") == 4 && Position("NC") == 4;
    case 5 => assert Position("HT") == 5;
    case 6 => assert Position("FL") == 6;
    case 7 => assert Position("HR") == 7;
    case 8 => assert Position("SD") == 8;
    case 9 => assert Position("SO") == 9;
    case 10 => assert Position("PF") == 10;
    case 11 => assert Position("MR") == 11;
  }

  ghost predicate Ranked(xs: seq<string>)
  {
    forall i, j :: 0 <= i < j < |xs| ==> Position(xs[i]) < Position(xs[j])
  }

  /** Appending what the position at `p` writes keeps every acronym two letters
      long and placed before `p + 1`. */
  lemma AppendSomePositions(xs: seq<string>, o: Option<string>, p: int)
    requires 0 <= p
    requires forall a :: a in xs ==> 0 <= Position(a) < p && |a| == 2
    requires o.Some? ==> Position(o.value) == p && |o.value| == 2
    ensures forall a :: a in AppendSome(xs, o) ==> 0 <= Position(a) < p + 1 && |a| == 2
  {
    match o
    case None =>
    case Some(x) =>
      forall a | a in xs + [x]
        ensures 0 <= Position(a) < p + 1 && |a| == 2
      {
        if a != x {
          assert a in xs;
        }
      }
  }

  /** Every acronym the first `k` positions write is two letters long and has
      its place among those positions. */
  lemma {:induction false} EmittedUpToPositions(m: OsuMods, k: nat)
    requires k <= SlotCount
    ensures forall a :: a in EmittedUpTo(m, k) ==> 0 <= Position(a) < k && |a| == 2
  {
    if k > 0 {
      EmittedUpToPositions(m, k - 1);
      SlotPositions(m, k - 1);
      AppendSomePositions(EmittedUpTo(m, k - 1), SlotAcronym(m, SlotAt(k - 1)), k - 1);
    }
  }

  /** Appending an acronym placed after all others keeps the order strict. */
  lemma RankedAppendSome(xs: seq<string>, o: Option<string>, p: int)
    requires Ranked(xs)
    requires forall a :: a in xs ==> Position(a) < p
    requires o.Some? ==> Position(o.value) == p
    ensures Ranked(AppendSome(xs, o))
  {
    match o
    case None =>
    case Some(x) =>
      var all := xs + [x];
      forall i, j | 0 <= i < j < |all|
        ensures Position(all[i]) < Position(all[j])
      {
        assert all[i] == xs[i];
        if j == |xs| {
          assert xs[i] in xs;
        } else {
          assert all[j] == xs[j];
        }
      }
  }

  lemma {:induction false} EmittedUpToRanked(m: OsuMods, k: nat)
    requires k <= SlotCount
    ensures Ranked(EmittedUpTo(m, k))
  {
    if k > 0 {
      EmittedUpToRanked(m, k - 1);
      EmittedUpToPositions(m, k - 1);
      SlotPositions(m, k - 1);
      RankedAppendSome(EmittedUpTo(m, k - 1), SlotAcronym(m, SlotAt(k - 1)), k - 1);
    }
  }

  /** `to_string` writes the acronyms in the fixed order NF, EZ, TD, HD, NC|DT, HT,
      FL, HR, SD, SO, PF, MR, each at most once, every one two characters long. */
  lemma EncodeOrdered(m: OsuMods)
    ensures Ranked(Emitted(m))
    ensures forall i :: 0 <= i < |Emitted(m)| ==> |Emitted(m)[i]| == 2
    ensures forall i, j :: 0 <= i < j < |Emitted(m)| ==> Emitted(m)[i] != Emitted(m)[j]
  {
    if m != NOMOD {
      EmittedUpToRanked(m, SlotCount);
      EmittedUpToPositions(m, SlotCount);
      assert forall i :: 0 <= i < |Emitted(m)| ==> Emitted(m)[i] in EmittedUpTo(m, SlotCount);
    }
  }

  lemma {:induction false} EmittedUpToMembers(m: OsuMods, k: nat, a: string)
    requires k <= SlotCount
    ensures a in EmittedUpTo(m, k) <==> 0 <= Position(a) < k && SlotAcronym(m, SlotAt(Position(a))) == Some(a)
  {
    if k > 0 {
      EmittedUpToMembers(m, k - 1, a);
      SlotPositions(m, k - 1);
    }
  }

  /** For a non-empty set, an acronym is written exactly when its own position of
      the order writes it. */
  lemma EmittedMembers(m: OsuMods, a: string)
    requires m != NOMOD
    ensures a in Emitted(m) <==> 0 <= Position(a) < SlotCount && SlotAcronym(m, SlotAt(Position(a))) == Some(a)
  {
    EmittedUpToMembers(m, SlotCount, a);
  }

  /** The alias NIGHTCORE is written as "NC" alone, never with "DT"; DOUBLETIME
      without the 512 bit is written as "DT"; a lone 512 bit writes neither. */
  lemma NightcoreReplacesDoubletime(m: OsuMods)
    ensures Contains(m, NIGHTCORE) ==> "NC" in Emitted(m) && "DT" !in Emitted(m)
    ensures Contains(m, DOUBLETIME) && !Contains(m, NIGHTCORE) ==> "DT" in Emitted(m) && "NC" !in Emitted(m)
    ensures !Contains(m, DOUBLETIME) ==> "DT" !in Emitted(m) && "NC" !in Emitted(m)
  {
    if m != NOMOD {
      EmittedMembers(m, "NC");
      EmittedMembers(m, "DT");
    }
  }

  /** The alias PERFECT is written as "SD" followed by "PF"; the 16384 bit
      without SUDDENDEATH writes "PF" nowhere. */
  lemma PerfectWritesSuddendeathToo(m: OsuMods)
    ensures Contains(m, PERFECT) ==> "SD" in Emitted(m) && "PF" in Emitted(m)
    ensures "PF" in Emitted(m) <==> Contains(m, PERFECT)
  {
    if m != NOMOD {
      EmittedMembers(m, "SD");
      EmittedMembers(m, "PF");
    }
  }

  /** Only the empty set encodes as "NM". */
  lemma EncodeNoModIff(m: OsuMods)
    ensures Encode(m) == "NM" <==> m == NOMOD
  {
    if m != NOMOD {
      var e := Emitted(m);
      EncodeFlattensEmitted(m);
      EncodeOrdered(m);
      EmittedMembers(m, "NM");
      ChunksOfFlatten(e, 2);
      assert Chunks("NM", 2) == ["NM"];
    }
  }

  /** One `if self.contains(flag) { res.push_str(acronym) }` step of `to_string`,
      taken at position `k` of the order. */
  method PushIfContains(m: OsuMods, k: nat, flag: OsuMods, acronym: string, res: string)
    returns (next: string)
    requires k < SlotCount && SlotAt(k) == Single(flag, acronym)
    requires res == EncodedUpTo(m, k)
    ensures next == EncodedUpTo(m, k + 1)
  {
    next := res;
    if Contains(m, flag) {
      next := next + acronym;
    }
  }

  /** The step of `to_string` at the DOUBLETIME position: "NC" when the whole
      NIGHTCORE pattern is present, "DT" otherwise. */
  method PushSpeed(m: OsuMods, res: string) returns (next: string)
    requires res == EncodedUpTo(m, 4)
    ensures next == EncodedUpTo(m, 5)
  {
    next := res;
    if Contains(m, DOUBLETIME) {
      if Contains(m, NIGHTCORE) {
        next := next + "NC";
      } else {
        next := next + "DT";
      }
    }
  }

  /** `to_string`: "NM" for the empty set, otherwise start from an empty string
      and push the acronym of every position of the order whose flags are all
      present. */
  method ToString(m: OsuMods) returns (res: string)
    ensures res == Encode(m)
  {
    res := "";
    if m == NOMOD {
      res := res + "NM";
      return;
    }
    res := PushIfContains(m, 0, NOFAIL, "NF", res);
    res := PushIfContains(m, 1, EASY, "EZ", res);
    res := PushIfContains(m, 2, TOUCHDEVICE, "TD", res);
    res := PushIfContains(m, 3, HIDDEN, "HD", res);
    res := PushSpeed(m, res);
    res := PushIfContains(m, 5, HALFTIME, "HT", res);
    res := PushIfContains(m, 6, FLASHLIGHT, "FL", res);
    res := PushIfContains(m, 7, HARDROCK, "HR", res);
    res := PushIfContains(m, 8, SUDDENDEATH, "SD", res);
    res := PushIfContains(m, 9, SPUNOUT, "SO", res);
    res := PushIfContains(m, 10, PERFECT, "PF", res);
    res := PushIfContains(m, 11, MIRROR, "MR", res);
  }

  // ---------------------------------------------------------------------------
  // Lenient decoder: from_str
  // ---------------------------------------------------------------------------

  /** `to_uppercase` on one character, for the ASCII letters. */
  function UpperChar(c: char): (u: char)
    ensures 'a' <= c <= 'z' ==> u as int == c as int - 32
    ensures !('a' <= c <= 'z') ==> u == c
  {
    if 'a' <= c <= 'z' then (c as int - 32) as char else c
  }

  function Upper(s: string): (u: string)
    ensures |u| == |s|
    ensures forall i :: 0 <= i < |s| ==> u[i] == UpperChar(s[i])
  {
    seq(|s|, i requires 0 <= i < |s| => UpperChar(s[i]))
  }

  /** The flags `from_str` returns for `s`: the union of what the two-character
      chunks of the upper-cased text name, unknown chunks adding nothing. */
  function DecodeLenient(s: string): OsuMods
  {
    Union(Chunks(Upper(s), 2))
  }

  /** `from_str`: upper-case, cut into chunks of two characters and OR in the flags
      of every chunk the table knows. It never fails. */
  method FromStr(s: string) returns (r: Result<OsuMods, OsuApiError>)
    ensures r == Ok(DecodeLenient(s))
  {
    var upper := Upper(s);
    var chunks := Cut(upper, 2);
    var flags := NOMOD;
    for i := 0 to |chunks|
      invariant flags == Union(chunks[..i])
    {
      assert chunks[..i + 1][..i] == chunks[..i];
      flags := flags | ChunkFlags(chunks[i]);
    }
    assert chunks[..|chunks|] == chunks;
    r := Ok(flags);
  }

  lemma UpperIdempotent(s: string)
    ensures Upper(Upper(s)) == Upper(s)
  {
  }

  /** Case does not matter to `from_str`. */
  lemma LenientIgnoresCase(s: string)
    ensures DecodeLenient(Upper(s)) == DecodeLenient(s)
  {
    UpperIdempotent(s);
  }

  lemma UpperAppend(s: string, t: string)
    ensures Upper(s + t) == Upper(s) + Upper(t)
  {
  }

  /** Two texts whose first part has an even length decode to the union of what
      each decodes to: chunks never straddle the seam. */
  lemma LenientConcat(s: string, t: string)
    requires |s| % 2 == 0
    ensures DecodeLenient(s + t) == DecodeLenient(s) | DecodeLenient(t)
  {
    UpperAppend(s, t);
    ChunksAppend(Upper(s), Upper(t));
    UnionAppend(Chunks(Upper(s), 2), Chunks(Upper(t), 2));
  }

  lemma UnionSingle(x: string)
    ensures Union([x]) == ChunkFlags(x)
  {
    assert [x][..0] == [];
  }

  /** A two-character text decodes to what its upper-cased form names in the
      table, and to nothing when the table does not know it. */
  lemma LenientPair(a: string)
    requires |a| == 2
    ensures DecodeLenient(a) == ChunkFlags(Upper(a))
  {
    var u := Upper(a);
    assert Chunks(u, 2) == [u];
    UnionSingle(u);
  }

  /** A chunk the table does not know ("MR", "XY"), or "NM", leaves the flags
      decoded so far unchanged. */
  lemma LenientIgnoredChunk(s: string, a: string)
    requires |s| % 2 == 0 && |a| == 2 && ChunkFlags(Upper(a)) == NOMOD
    ensures DecodeLenient(s + a) == DecodeLenient(s)
  {
    LenientConcat(s, a);
    LenientPair(a);
  }

  /** A trailing odd character is cut into a one-character chunk that adds nothing. */
  lemma LenientDropsOddTail(s: string)
    requires |s| % 2 == 1
    ensures DecodeLenient(s) == DecodeLenient(s[..|s| - 1])
  {
    var init, last := s[..|s| - 1], s[|s| - 1..];
    assert s == init + last;
    LenientConcat(init, last);
    var u := Upper(last);
    assert Chunks(u, 2) == [u];
    UnionSingle(u);
    assert ChunkFlags(u) == NOMOD;
  }

  // ---------------------------------------------------------------------------
  // Round trip through the encoder and the lenient decoder
  // ---------------------------------------------------------------------------

  /** The one-bit flags that both the encoder and the lenient decoder name. */
  const PLAIN: OsuMods := NOFAIL | EASY | TOUCHDEVICE | HIDDEN | HARDROCK | SUDDENDEATH
                          | DOUBLETIME | HALFTIME | FLASHLIGHT | SPUNOUT

  function NightcorePart(m: OsuMods): OsuMods
  {
    if Contains(m, NIGHTCORE) then NIGHTCORE else NOMOD
  }

  function PerfectPart(m: OsuMods): OsuMods
  {
    if Contains(m, PERFECT) then PERFECT else NOMOD
  }

  /** The flags of `m` that survive the round trip: every bit the encoder writes
      an acronym for and the decoder reads back. RELAX, FADEIN, SCOREV2 and
      MIRROR do not survive, nor a 512 bit without DOUBLETIME or a 16384 bit
      without SUDDENDEATH. */
  function Retained(m: OsuMods): OsuMods
  {
    (m & PLAIN) | NightcorePart(m) | PerfectPart(m)
  }

  /** A flag set the text form can carry: only bits with an acronym both ways,
      and the alias bits only together with the bit they extend. */
  predicate Representable(m: OsuMods)
  {
    m & !(PLAIN | NIGHTCORE | PERFECT) == 0
    && (m & 512 != 0 ==> m & DOUBLETIME != 0)
    && (m & 16384 != 0 ==> m & SUDDENDEATH != 0)
  }

  /** What an acronym the encoder may write is worth to `from_str`. */
  function OptionFlags(o: Option<string>): OsuMods
  {
    match o
    case None => NOMOD
    case Some(a) => ChunkFlags(a)
  }

  /** Every chunk's flags are part of the union. */
  lemma {:induction false} UnionUpper(xs: seq<string>, i: nat)
    requires i < |xs|
    ensures Contains(Union(xs), ChunkFlags(xs[i]))
    decreases |xs|
  {
    var init := xs[..|xs| - 1];
    if i < |xs| - 1 {
      UnionUpper(init, i);
      assert init[i] == xs[i];
    }
  }

  /** The union is the least flag set that holds every chunk's flags. */
  lemma {:induction false} UnionLeast(xs: seq<string>, u: OsuMods)
    requires forall i :: 0 <= i < |xs| ==> Contains(u, ChunkFlags(xs[i]))
    ensures Contains(u, Union(xs))
    decreases |xs|
  {
    if xs != [] {
      var init := xs[..|xs| - 1];
      forall i | 0 <= i < |init|
        ensures Contains(u, ChunkFlags(init[i]))
      {
        assert init[i] == xs[i];
      }
      UnionLeast(init, u);
      OrLeast(Union(init), ChunkFlags(xs[|xs| - 1]), u);
    }
  }

  /** What position `k` of the order reads back, as a function of the flags. */
  function SlotRetained(m: OsuMods, k: nat): OsuMods
  {
    match k
    case 0 => m & NOFAIL
    case 1 => m & EASY
    case 2 => m & TOUCHDEVICE
    case 3 => m & HIDDEN
    case 4 => (m & DOUBLETIME) | NightcorePart(m)
    case 5 => m & HALFTIME
    case 6 => m & FLASHLIGHT
    case 7 => m & HARDROCK
    case 8 => m & SUDDENDEATH
    case 9 => m & SPUNOUT
    case 10 => PerfectPart(m)
    case _ => NOMOD
  }

  /** Each position of the order reads back its part of `Retained(m)`: MR reads
      back nothing, the speed position the DOUBLETIME bit and NIGHTCORE pattern. */
  lemma SlotReadsBack(m: OsuMods, k: nat)
    requires k < SlotCount
    ensures OptionFlags(SlotAcronym(m, SlotAt(k))) == SlotRetained(m, k)
    ensures Contains(Retained(m), SlotRetained(m, k))
  {
    if k < 4 {
      SlotReadsBackFirst(m, k);
    } else if k < 8 {
      SlotReadsBackMiddle(m, k);
    } else {
      SlotReadsBackLast(m, k);
    }
  }

  lemma SlotReadsBackFirst(m: OsuMods, k: nat)
    requires k < 4
    ensures OptionFlags(SlotAcronym(m, SlotAt(k))) == SlotRetained(m, k)
    ensures Contains(Retained(m), SlotRetained(m, k))
  {
    match k
    case 0 => assert SlotAt(k) == SlotAt(0);
    case 1 => assert SlotAt(k) == SlotAt(1);
    case 2 => assert SlotAt(k) == SlotAt(2);
    case 3 => assert SlotAt(k) == SlotAt(3);
  }

  /** The speed position: "NC" reads back as the whole NIGHTCORE pattern, "DT" as
      DOUBLETIME alone. */
  lemma SlotReadsBackSpeed(m: OsuMods)
    ensures OptionFlags(SlotAcronym(m, SlotAt(4))) == SlotRetained(m, 4)
    ensures Contains(Retained(m), SlotRetained(m, 4))
  {
    if Contains(m, DOUBLETIME) {
      if Contains(m, NIGHTCORE) {
        assert SlotAcronym(m, SlotAt(4)) == Some("NC");
      } else {
        assert SlotAcronym(m, SlotAt(4)) == Some("DT");
      }
    }
  }

  lemma SlotReadsBackMiddle(m: OsuMods, k: nat)
    requires 4 <= k < 8
    ensures OptionFlags(SlotAcronym(m, SlotAt(k))) == SlotRetained(m, k)
    ensures Contains(Retained(m), SlotRetained(m, k))
  {
    match k
    case 4 => SlotReadsBackSpeed(m);
    case 5 => assert SlotAt(k) == SlotAt(5);
    case 6 => assert SlotAt(k) == SlotAt(6);
    case 7 => assert SlotAt(k) == SlotAt(7);
  }

  /** The PERFECT position: "PF" reads back as the whole PERFECT pattern. */
  lemma SlotReadsBackPerfect(m: OsuMods)
    ensures OptionFlags(SlotAcronym(m, SlotAt(10))) == SlotRetained(m, 10)
    ensures Contains(Retained(m), SlotRetained(m, 10))
  {
    if Contains(m, PERFECT) {
      assert SlotAcronym(m, SlotAt(10)) == Some("PF");
    } else {
      assert SlotAcronym(m, SlotAt(10)) == None;
    }
  }

  lemma SlotReadsBackLast(m: OsuMods, k: nat)
    requires 8 <= k < SlotCount
    ensures OptionFlags(SlotAcronym(m, SlotAt(k))) == SlotRetained(m, k)
    ensures Contains(Retained(m), SlotRetained(m, k))
  {
    match k
    case 8 => assert SlotAt(k) == SlotAt(8);
    case 9 => assert SlotAt(k) == SlotAt(9);
    case 10 => SlotReadsBackPerfect(m);
    case 11 => assert SlotAt(k) == SlotAt(11);
  }

  /** A flag set holding what every position reads back holds all of `Retained(m)`. */
  lemma RetainedCovered(m: OsuMods, u: OsuMods)
    requires forall k :: 0 <= k < SlotCount ==> Contains(u, SlotRetained(m, k))
    ensures Contains(u, Retained(m))
  {
    assert Contains(u, SlotRetained(m, 0)) && Contains(u, SlotRetained(m, 1));
    assert Contains(u, SlotRetained(m, 2)) && Contains(u, SlotRetained(m, 3));
    assert Contains(u, SlotRetained(m, 4)) && Contains(u, SlotRetained(m, 5));
    assert Contains(u, SlotRetained(m, 6)) && Contains(u, SlotRetained(m, 7));
    assert Contains(u, SlotRetained(m, 8)) && Contains(u, SlotRetained(m, 9));
    assert Contains(u, SlotRetained(m, 10));
  }

  /** The decoded union holds what each position of the order reads back. */
  lemma SlotWithinUnion(m: OsuMods, k: nat)
    requires m != NOMOD && k < SlotCount
    ensures Contains(Union(Emitted(m)), SlotRetained(m, k))
  {
    SlotReadsBack(m, k);
    match SlotAcronym(m, SlotAt(k))
    case None =>
    case Some(a) =>
      SlotPositions(m, k);
      EmittedMembers(m, a);
      var i :| 0 <= i < |Emitted(m)| && Emitted(m)[i] == a;
      UnionUpper(Emitted(m), i);
  }

  /** Every acronym the encoder writes reads back as flags of `Retained(m)`. */
  lemma EmittedWithinRetained(m: OsuMods, i: nat)
    requires m != NOMOD && i < |Emitted(m)|
    ensures Contains(Retained(m), ChunkFlags(Emitted(m)[i]))
  {
    var a := Emitted(m)[i];
    EmittedMembers(m, a);
    SlotReadsBack(m, Position(a));
  }

  lemma Antisymmetric(a: OsuMods, b: OsuMods)
    requires Contains(a, b) && Contains(b, a)
    ensures a == b
  {
  }

  /** For a non-empty set, the decoded union of the written acronyms is `Retained(m)`. */
  lemma UnionEmittedRetained(m: OsuMods)
    requires m != NOMOD
    ensures Union(Emitted(m)) == Retained(m)
  {
    var u := Union(Emitted(m));
    forall i | 0 <= i < |Emitted(m)|
      ensures Contains(Retained(m), ChunkFlags(Emitted(m)[i]))
    {
      EmittedWithinRetained(m, i);
    }
    UnionLeast(Emitted(m), Retained(m));
    forall k | 0 <= k < SlotCount
      ensures Contains(u, SlotRetained(m, k))
    {
      SlotWithinUnion(m, k);
    }
    RetainedCovered(m, u);
    Antisymmetric(u, Retained(m));
  }

  /** Exactly the representable sets survive the round trip unchanged. */
  lemma RetainedExactly(m: OsuMods)
    ensures Retained(m) == m <==> Representable(m)
  {
  }

  /** No lower-case ASCII letter in `s`. */
  predicate Capitalised(s: string)
  {
    forall i :: 0 <= i < |s| ==> !('a' <= s[i] <= 'z')
  }

  lemma UpperOfCapitalised(s: string)
    requires Capitalised(s)
    ensures Upper(s) == s
  {
    assert forall i :: 0 <= i < |s| ==> Upper(s)[i] == s[i];
  }

  lemma SlotAcronymCapitalised(m: OsuMods, k: nat)
    requires k < SlotCount
    ensures SlotAcronym(m, SlotAt(k)).Some? ==> Capitalised(SlotAcronym(m, SlotAt(k)).value)
  {
    SlotPositions(m, k);
  }

  lemma {:induction false} EncodedUpToCapitalised(m: OsuMods, k: nat)
    requires k <= SlotCount
    ensures Capitalised(EncodedUpTo(m, k))
  {
    if k > 0 {
      EncodedUpToCapitalised(m, k - 1);
      SlotAcronymCapitalised(m, k - 1);
    }
  }

  /** The text `to_string` writes is already upper-case. */
  lemma UpperOfEncoded(m: OsuMods)
    ensures Upper(Encode(m)) == Encode(m)
  {
    if m != NOMOD {
      EncodedUpToCapitalised(m, SlotCount);
    }
    UpperOfCapitalised(Encode(m));
  }

  /** Decoding what `to_string` writes reads its acronyms back one by one. */
  lemma DecodeEncoded(m: OsuMods)
    ensures DecodeLenient(Encode(m)) == Union(Emitted(m))
  {
    var e := Emitted(m);
    UpperOfEncoded(m);
    EncodeFlattensEmitted(m);
    EncodeOrdered(m);
    ChunksOfFlatten(e, 2);
  }

  /** Reading back what `to_string` writes gives the retained flags: exactly `m`
      when `m` is representable, and something else otherwise. */
  lemma RoundTrip(m: OsuMods)
    ensures DecodeLenient(Encode(m)) == Retained(m)
    ensures DecodeLenient(Encode(m)) == m <==> Representable(m)
  {
    DecodeEncoded(m);
    if m == NOMOD {
      UnionSingle("NM");
    } else {
      UnionEmittedRetained(m);
    }
    RetainedExactly(m);
  }

  /** Sets that lose flags on the way through the text form: MIRROR is written
      as "MR" but not read back; RELAX, FADEIN and SCOREV2 are never written; a
      lone 512 or 16384 bit writes nothing, since `contains` tests whole patterns. */
  lemma RoundTripLimits()
    ensures DecodeLenient(Encode(MIRROR)) == NOMOD
    ensures DecodeLenient(Encode(RELAX)) == NOMOD && DecodeLenient(Encode(FADEIN)) == NOMOD
    ensures DecodeLenient(Encode(SCOREV2)) == NOMOD
    ensures DecodeLenient(Encode(512)) == NOMOD && DecodeLenient(Encode(16384)) == NOMOD
    ensures DecodeLenient(Encode(NIGHTCORE | PERFECT | HIDDEN)) == NIGHTCORE | PERFECT | HIDDEN
  {
    RoundTrip(MIRROR);
    RoundTrip(RELAX);
    RoundTrip(FADEIN);
    RoundTrip(SCOREV2);
    RoundTrip(512);
    RoundTrip(16384);
    RoundTrip(NIGHTCORE | PERFECT | HIDDEN);
  }

  // ---------------------------------------------------------------------------
  // Strict decoders: visit_str and visit_seq
  // ---------------------------------------------------------------------------

  /** The deserializer's errors: a string that is no acronym, or a JSON value
      that is neither a string nor an array. */
  datatype DeError = InvalidValue(text: string) | InvalidType

  /** The JSON shapes the deserializer can hand the visitor: a string, an array
      of further values, or anything else (a number, an object, ...). */
  datatype ModsWire = WireStr(text: string) | WireSeq(items: seq<ModsWire>) | WireOther

  /** `visit_str`: exactly one acronym, matched as written (no upper-casing). */
  function VisitStr(v: string): (r: Result<OsuMods, DeError>)
    ensures r.Ok? <==> AcronymFlags(v).Some?
    ensures r.Err? ==> r.error == InvalidValue(v)
  {
    match AcronymFlags(v)
    case Some(f) => Ok(f)
    case None => Err(InvalidValue(v))
  }

  /** `deserialize_any` with the visitor: strings go to `visit_str`, arrays to
      `visit_seq`, every other shape is an invalid type. */
  function Deserialize(w: ModsWire): (r: Result<OsuMods, DeError>)
    ensures w.WireOther? ==> r == Err(InvalidType)
    ensures w.WireStr? ==> (r.Ok? <==> AcronymFlags(w.text).Some?)
    ensures r.Err? && r.error.InvalidValue? ==> AcronymFlags(r.error.text).None?
    decreases w, 1
  {
    match w
    case WireStr(v) => VisitStr(v)
    case WireSeq(items) => SeqUnion(items)
    case WireOther => Err(InvalidType)
  }

  /** What `visit_seq` returns for `items`: the union of the elements' flags,
      or the error of the first element that fails. */
  function SeqUnion(items: seq<ModsWire>): (r: Result<OsuMods, DeError>)
    ensures r.Err? && r.error.InvalidValue? ==> AcronymFlags(r.error.text).None?
    decreases items, 0
  {
    if items == [] then Ok(NOMOD)
    else match SeqUnion(items[..|items| - 1])
      case Err(e) => Err(e)
      case Ok(acc) =>
        match Deserialize(items[|items| - 1])
        case Err(e) => Err(e)
        case Ok(f) => Ok(Or(acc, f))
  }


  /** Once a prefix of the elements fails, so does the whole array, with the same error. */
  lemma {:induction false} SeqUnionErrSticky(items: seq<ModsWire>, k: nat)
    requires k <= |items| && SeqUnion(items[..k]).Err?
    ensures SeqUnion(items) == SeqUnion(items[..k])
    decreases |items|
  {
    if k < |items| {
      var init := items[..|items| - 1];
      assert init[..k] == items[..k];
      SeqUnionErrSticky(init, k);
    } else {
      assert items[..k] == items;
    }
  }

  /** One more element that decodes: the union grows by its flags. */
  lemma SeqUnionGrows(prefix: seq<ModsWire>, x: ModsWire, acc: OsuMods, f: OsuMods)
    requires SeqUnion(prefix) == Ok(acc) && Deserialize(x) == Ok(f)
    ensures SeqUnion(prefix + [x]) == Ok(Or(acc, f))
  {
    assert (prefix + [x])[..|prefix|] == prefix;
  }

  /** One more element that fails: the whole array fails with its error. */
  lemma SeqUnionFails(items: seq<ModsWire>, i: nat, e: DeError)
    requires i < |items| && SeqUnion(items[..i]).Ok? && Deserialize(items[i]) == Err(e)
    ensures SeqUnion(items) == Err(e)
  {
    assert items[..i + 1][..i] == items[..i];
    SeqUnionErrSticky(items, i + 1);
  }

  /** `visit_seq`: ORs each element into `mods`, and the `?` on `next_element`
      returns the first element's error at once. */
  method VisitSeq(items: seq<ModsWire>) returns (r: Result<OsuMods, DeError>)
    ensures r == SeqUnion(items)
  {
    var mods := NOMOD;
    var i := 0;
    while i < |items|
      invariant 0 <= i <= |items|
      invariant SeqUnion(items[..i]) == Ok(mods)
    {
      var next := Deserialize(items[i]);
      match next
      case Err(e) =>
        SeqUnionFails(items, i, e);
        return Err(e);
      case Ok(f) =>
        assert items[..i + 1] == items[..i] + [items[i]];
        SeqUnionGrows(items[..i], items[i], mods, f);
        mods := mods | f;
      i := i + 1;
    }
    assert items[..i] == items;
    r := Ok(mods);
  }

  /** A decoded array holds every element's flags, and every element decoded. */
  lemma {:induction false} SeqUnionHolds(items: seq<ModsWire>)
    requires SeqUnion(items).Ok?
    ensures forall i :: 0 <= i < |items| ==>
              Deserialize(items[i]).Ok? && Contains(SeqUnion(items).value, Deserialize(items[i]).value)
    decreases |items|
  {
    if items != [] {
      var init := items[..|items| - 1];
      var acc := SeqUnion(init).value;
      var f := Deserialize(items[|items| - 1]).value;
      assert SeqUnion(items).value == Or(acc, f);
      SeqUnionHolds(init);
      OrBounds(acc, f);
      forall i | 0 <= i < |items|
        ensures Deserialize(items[i]).Ok? && Contains(Or(acc, f), Deserialize(items[i]).value)
      {
        if i < |init| {
          assert items[i] == init[i];
          ContainsTrans(Or(acc, f), acc, Deserialize(init[i]).value);
        }
      }
    }
  }

  /** A failing array fails with the error of its first failing element. */
  lemma {:induction false} SeqUnionFirstError(items: seq<ModsWire>)
    requires SeqUnion(items).Err?
    ensures exists i :: 0 <= i < |items| && Deserialize(items[i]) == Err(SeqUnion(items).error)
                        && forall j :: 0 <= j < i ==> Deserialize(items[j]).Ok?
    decreases |items|
  {
    var init := items[..|items| - 1];
    if SeqUnion(init).Err? {
      SeqUnionFirstError(init);
      var i :| 0 <= i < |init| && Deserialize(init[i]) == Err(SeqUnion(init).error)
               && forall j :: 0 <= j < i ==> Deserialize(init[j]).Ok?;
      assert forall j :: 0 <= j <= i ==> init[j] == items[j];
    } else {
      SeqUnionHolds(init);
      assert forall j :: 0 <= j < |init| ==> init[j] == items[j];
      assert Deserialize(items[|init|]) == Err(SeqUnion(items).error);
    }
  }

  /** An array decodes exactly when every element does; it then holds each
      element's flags; otherwise its error is that of the first failing element. */
  lemma SeqUnionSpec(items: seq<ModsWire>)
    ensures SeqUnion(items).Ok? <==> forall i :: 0 <= i < |items| ==> Deserialize(items[i]).Ok?
    ensures SeqUnion(items).Ok? ==>
              forall i :: 0 <= i < |items| ==> Contains(SeqUnion(items).value, Deserialize(items[i]).value)
    ensures SeqUnion(items).Err? ==>
              exists i :: 0 <= i < |items| && Deserialize(items[i]) == Err(SeqUnion(items).error)
                          && forall j :: 0 <= j < i ==> Deserialize(items[j]).Ok?
  {
    if SeqUnion(items).Ok? {
      SeqUnionHolds(items);
    } else {
      SeqUnionFirstError(items);
    }
  }

  /** The array's flags are the least set holding every element's flags; the
      empty array decodes to the empty set. */
  lemma {:induction false} SeqUnionLeast(items: seq<ModsWire>, u: OsuMods)
    requires SeqUnion(items).Ok?
    requires forall i :: 0 <= i < |items| ==> Deserialize(items[i]).Ok? && Contains(u, Deserialize(items[i]).value)
    ensures Contains(u, SeqUnion(items).value)
    decreases |items|
  {
    if items != [] {
      var init := items[..|items| - 1];
      var acc := SeqUnion(init).value;
      var f := Deserialize(items[|items| - 1]).value;
      assert SeqUnion(items).value == Or(acc, f);
      assert Contains(u, f);
      forall i | 0 <= i < |init|
        ensures Deserialize(init[i]).Ok? && Contains(u, Deserialize(init[i]).value)
      {
        assert init[i] == items[i];
      }
      SeqUnionLeast(init, u);
      OrLeast(acc, f, u);
    }
  }

  /** The strict decoder accepts what the lenient one accepts of a single
      acronym written in capitals, with the same flags. */
  lemma StrictAgreesWithLenient(v: string)
    requires VisitStr(v).Ok?
    ensures DecodeLenient(v) == VisitStr(v).value
  {
    assert Capitalised(v);
    UpperOfCapitalised(v);
    LenientPair(v);
  }

  /** The strict decoder is case-sensitive and knows no "MR"; the lenient one
      accepts the lower-case acronym. */
  lemma StrictIsCaseSensitive()
    ensures VisitStr("hd") == Err(InvalidValue("hd")) && DecodeLenient("hd") == HIDDEN
    ensures VisitStr("MR") == Err(InvalidValue("MR")) && DecodeLenient("MR") == NOMOD
    ensures VisitStr("HD") == Ok(HIDDEN) && VisitStr("NM") == Ok(NOMOD)
  {
    LenientPair("hd");
    LenientPair("MR");
  }

  /** Every acronym the encoder writes, except "MR", is one the decoders know. */
  lemma PositionKnown(a: string)
    requires 0 <= Position(a) < SlotCount
    ensures Position(a) < SlotCount - 1 ==> AcronymFlags(a).Some?
    ensures Position(a) == SlotCount - 1 <==> a == "MR"
  {
  }

  /** The acronyms as an array of JSON strings. */
  function StrItems(xs: seq<string>): (r: seq<ModsWire>)
    ensures |r| == |xs|
    ensures forall i :: 0 <= i < |xs| ==> r[i] == WireStr(xs[i])
  {
    seq(|xs|, i requires 0 <= i < |xs| => WireStr(xs[i]))
  }

  /** An array of known acronyms decodes to the union the lenient decoder
      computes over the same chunks. */
  lemma {:induction false} StrSeqUnion(xs: seq<string>)
    requires forall i :: 0 <= i < |xs| ==> AcronymFlags(xs[i]).Some?
    ensures SeqUnion(StrItems(xs)) == Ok(Union(xs))
    decreases |xs|
  {
    if xs != [] {
      var init := xs[..|xs| - 1];
      assert StrItems(xs)[..|xs| - 1] == StrItems(init);
      StrSeqUnion(init);
    }
  }

  /** "MR" is written exactly for MIRROR, at the last position of the order. */
  lemma MirrorEmitted(m: OsuMods)
    requires m != NOMOD
    ensures "MR" in Emitted(m) <==> Contains(m, MIRROR)
  {
    EmittedMembers(m, "MR");
    assert Position("MR") == SlotCount - 1;
    assert SlotAt(SlotCount - 1) == Single(MIRROR, "MR");
  }

  /** A written acronym is in the strict decoder's table unless it is "MR". */
  lemma WrittenKnown(m: OsuMods, a: string)
    requires m != NOMOD && a in Emitted(m)
    ensures AcronymFlags(a).Some? <==> a != "MR"
  {
    EmittedMembers(m, a);
    PositionKnown(a);
  }

  /** Of the acronyms the encoder writes for a non-empty set, exactly "MR" is
      unknown to the decoders. */
  lemma EmittedKnown(m: OsuMods)
    requires m != NOMOD
    ensures forall i :: 0 <= i < |Emitted(m)| ==> (AcronymFlags(Emitted(m)[i]).Some? <==> Emitted(m)[i] != "MR")
    ensures "MR" in Emitted(m) <==> Contains(m, MIRROR)
  {
    var e := Emitted(m);
    MirrorEmitted(m);
    forall i | 0 <= i < |e|
      ensures AcronymFlags(e[i]).Some? <==> e[i] != "MR"
    {
      WrittenKnown(m, e[i]);
    }
  }

  /** With MIRROR set, the array of written acronyms fails on its "MR". */
  lemma EncodedArrayWithMirror(m: OsuMods)
    requires Contains(m, MIRROR)
    ensures SeqUnion(StrItems(Emitted(m))) == Err(InvalidValue("MR"))
  {
    var e := Emitted(m);
    var items := StrItems(e);
    EmittedKnown(m);
    SeqUnionSpec(items);
    var i :| 0 <= i < |e| && e[i] == "MR";
    assert Deserialize(items[i]).Err?;
    var j :| 0 <= j < |items| && Deserialize(items[j]) == Err(SeqUnion(items).error);
    assert e[j] == "MR";
  }

  /** The acronyms `to_string` writes, sent as an array of strings, decode to the
      retained flags, unless MIRROR is set: its "MR" makes the array fail. */
  lemma EncodedArrayRoundTrip(m: OsuMods)
    ensures !Contains(m, MIRROR) ==> Deserialize(WireSeq(StrItems(Emitted(m)))) == Ok(Retained(m))
    ensures Contains(m, MIRROR) ==> Deserialize(WireSeq(StrItems(Emitted(m)))) == Err(InvalidValue("MR"))
  {
    if Contains(m, MIRROR) {
      EncodedArrayWithMirror(m);
    } else {
      RoundTrip(m);
      DecodeEncoded(m);
      if m == NOMOD {
        assert AcronymFlags(Emitted(m)[0]).Some?;
      } else {
        EmittedKnown(m);
      }
      StrSeqUnion(Emitted(m));
    }
  }
}
