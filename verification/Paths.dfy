/** The grammar of file paths: a drive digit, ":/", and parts separated by slashes. */
module Paths {
  import opened Bits
  import opened Arguments

  const MAX_PATH: int := 128
  const SLASH: Byte := 47
  const COLON: Byte := 58

  /** `path_valid_form`: "d:/" with a digit d, and more than two characters. */
  predicate ValidForm(s: CString) {
    |s| > 2 && 47 < s[0] < 58 && s[1] == COLON && s[2] == SLASH
  }

  /** That is, the string starts with a drive as it is printed. */
  lemma FormExact(s: CString)
    ensures ValidForm(s) <==> exists drive: nat | drive < 10 :: DrivePrefix(drive) <= s
  {
    if ValidForm(s) {
      assert DrivePrefix(s[0] - 48) <= s;
    }
  }

  function DrivePrefix(drive: nat): CString
    requires drive < 10
  {
    ['0' as int + drive, ':' as int, '/' as int]
  }

  /** The characters of the part at the start of `t`, up to a slash or the end. */
  function PartLen(t: CString): (n: nat)
    ensures n <= |t|
    ensures forall i | 0 <= i < n :: t[i] != SLASH
    ensures n < |t| ==> t[n] == SLASH
  {
    if t == [] || t[0] == SLASH then 0 else 1 + PartLen(t[1..])
  }

  function FirstPart(t: CString): CString {
    t[..PartLen(t)]
  }

  /** What follows the part and the slash behind it. */
  function AfterPart(t: CString): CString {
    if PartLen(t) < |t| then t[PartLen(t) + 1..] else []
  }

  /** The parts found one after the other, until one is empty. */
  function Parts(t: CString): seq<CString>
    decreases |t|
  {
    if PartLen(t) == 0 then [] else [FirstPart(t)] + Parts(AfterPart(t))
  }

  datatype Path = Path(drive: nat, parts: seq<CString>)
  datatype Parsed = Rejected | Accepted(path: Path)

  /** `pparser_parse`. */
  function Parse(s: CString): Parsed {
    if |s| > MAX_PATH || !ValidForm(s) || Parts(s[3..]) == [] then Rejected
    else Accepted(Path(s[0] - 48, Parts(s[3..])))
  }

  // ------------------------------------------------------------------
  // Parts are the components up to the first empty one.
  // ------------------------------------------------------------------

  /** All components of `t`, split at every slash. */
  function Components(t: CString): seq<CString>
    decreases |t|
  {
    if PartLen(t) == |t| then [t] else [FirstPart(t)] + Components(t[PartLen(t) + 1..])
  }

  function UpToEmpty(cs: seq<CString>): seq<CString> {
    if cs == [] || cs[0] == [] then [] else [cs[0]] + UpToEmpty(cs[1..])
  }

  lemma {:induction false} PartsAreComponents(t: CString)
    ensures Parts(t) == UpToEmpty(Components(t))
    decreases |t|
  {
    if PartLen(t) == |t| {
      assert FirstPart(t) == t;
      if t != [] {
        assert AfterPart(t) == [];
        assert Parts([]) == [];
      }
    } else {
      PartsAreComponents(t[PartLen(t) + 1..]);
    }
  }

  // ------------------------------------------------------------------
  // Printing and parsing back.
  // ------------------------------------------------------------------

  predicate ProperPart(p: CString) {
    p != [] && '/' as int !in p
  }

  function Joined(parts: seq<CString>): CString {
    if parts == [] then [] else if |parts| == 1 then parts[0] else parts[0] + ['/' as int] + Joined(parts[1..])
  }

  function Printed(p: Path): CString
    requires p.drive < 10
  {
    DrivePrefix(p.drive) + Joined(p.parts)
  }

  lemma {:induction false} PartLenOfProper(p: CString, rest: CString)
    requires SLASH !in p && (rest == [] || rest[0] == SLASH)
    ensures PartLen(p + rest) == |p|
  {
    if p == [] {
      assert p + rest == rest;
    } else {
      assert (p + rest)[1..] == p[1..] + rest;
      PartLenOfProper(p[1..], rest);
    }
  }

  /** What may follow the last part: nothing, or a slash that no part follows. */
  predicate Trailer(rest: CString) {
    rest == [] || (rest[0] == '/' as int && (|rest| == 1 || rest[1] == '/' as int))
  }

  lemma {:induction false} PartsOfJoined(parts: seq<CString>, rest: CString)
    requires parts != [] && Trailer(rest) && forall p | p in parts :: ProperPart(p)
    ensures Parts(Joined(parts) + rest) == parts
    decreases |parts|
  {
    hide Joined, Parts, ProperPart;
    JoinedUnfolds(parts);
    assert parts[0] in parts;
    if |parts| == 1 {
      assert Joined(parts) == parts[0] && parts == [parts[0]];
      PartsOfOne(parts[0], rest);
      TrailerNoPart(rest);
    } else {
      var more := Joined(parts[1..]) + rest;
      PartsOfJoined(parts[1..], rest);
      PartsOfTwo(parts[0], more);
      assert Joined(parts) + rest == parts[0] + ([SLASH] + more);
    }
  }

  lemma PartsOfTwo(p: CString, more: CString)
    requires ProperPart(p)
    ensures Parts(p + ([SLASH] + more)) == [p] + Parts(more)
  {
    hide Parts, ProperPart;
    var rest: CString := [SLASH] + more;
    PartsOfOne(p, rest);
    assert rest[1..] == more;
  }

  lemma TrailerNoPart(rest: CString)
    requires Trailer(rest)
    ensures rest != [] ==> Parts(rest[1..]) == []
  {
  }

  lemma JoinedUnfolds(parts: seq<CString>)
    ensures parts == [] ==> Parts(Joined(parts)) == []
    ensures parts != [] ==> Joined(parts) == parts[0] + if |parts| == 1 then [] else [SLASH] + Joined(parts[1..])
  {
  }

  /** A proper part in front of nothing, or of a slash and the rest. */
  lemma PartsOfOne(p: CString, rest: CString)
    requires ProperPart(p) && (rest == [] || rest[0] == SLASH)
    ensures Parts(p + rest) == [p] + (if rest == [] then [] else Parts(rest[1..]))
  {
    var t: CString := p + rest;
    PartLenOfProper(p, rest);
    assert FirstPart(t) == p;
    assert AfterPart(t) == if rest == [] then [] else rest[1..];
    if rest == [] {
      assert Parts([]) == [];
    }
  }

  /** A digit drive and a non-empty list of proper parts. */
  predicate ProperPath(p: Path) {
    p.drive < 10 && p.parts != [] && forall q | q in p.parts :: ProperPart(q)
  }

  /** `s` is the path as printed, and a trailer. */
  predicate Prints(p: Path, s: CString) {
    && ProperPath(p) && Printed(p) <= s && Trailer(s[|Printed(p)|..])
  }

  /** Every such path that prints within the limit is parsed back exactly. */
  lemma RoundTrip(p: Path)
    requires ProperPath(p) && |Printed(p)| <= 128
    ensures Parse(Printed(p)) == Accepted(p)
  {
    hide Parts;
    PartsOfJoined(p.parts, []);
    assert Printed(p)[3..] == Joined(p.parts) + [];
  }

  lemma PartsUnfold(t: CString)
    ensures PartLen(t) == 0 ==> Parts(t) == []
    ensures PartLen(t) > 0 ==>
              Parts(t) == [FirstPart(t)] + if PartLen(t) == |t| then [] else Parts(AfterPart(t))
  {
    hide PartLen;
    if PartLen(t) == |t| {
      assert Parts([]) == [];
    }
  }

  /** How a string with parts divides into its first part and the rest. */
  lemma FirstAndRest(t: CString) returns (p: CString, rest: CString)
    requires Parts(t) != []
    ensures t == p + rest && ProperPart(p) && |rest| < |t| && (rest == [] || rest[0] == '/' as int)
    ensures Parts(t) == [p] + if rest == [] then [] else Parts(rest[1..])
    ensures rest != [] && Parts(rest[1..]) == [] ==> Trailer(rest)
  {
    hide PartLen, Parts;
    PartsUnfold(t);
    p := FirstPart(t);
    rest := t[PartLen(t)..];
    if rest != [] {
      assert rest[1..] == AfterPart(t);
      PartsUnfold(rest[1..]);
    }
  }

  /** The parts found, joined, are what they were found in, up to a trailer. */
  lemma {:induction false} JoinedParts(t: CString) returns (trailer: CString)
    requires Parts(t) != []
    ensures t == Joined(Parts(t)) + trailer && Trailer(trailer)
    ensures forall p | p in Parts(t) :: ProperPart(p)
    decreases |t|
  {
    hide Parts, Joined, ProperPart;
    var p, rest := FirstAndRest(t);
    if rest == [] || Parts(rest[1..]) == [] {
      trailer := rest;
      JoinedUnfolds([p]);
      assert Parts(t) == [p] && Joined([p]) == p;
    } else {
      trailer := JoinedParts(rest[1..]);
      JoinedCons(p, Parts(rest[1..]));
      assert rest == [SLASH] + rest[1..];
      assert t == p + ([SLASH] + (Joined(Parts(rest[1..])) + trailer));
    }
  }

  lemma JoinedCons(p: CString, parts: seq<CString>)
    requires parts != []
    ensures Joined([p] + parts) == p + [SLASH] + Joined(parts)
  {
    assert ([p] + parts)[1..] == parts;
  }

  /** A string is accepted as a path exactly if it has at most 128 characters and is that
      path as printed, and a trailer. */
  lemma ParseExact(s: CString, p: Path)
    ensures Parse(s) == Accepted(p) <==> |s| <= 128 && Prints(p, s)
  {
    hide Parts, Joined, Trailer, ProperPart;
    if |s| <= 128 && Prints(p, s) {
      var rest := s[|Printed(p)|..];
      assert s == Printed(p) + rest;
      PartsOfJoined(p.parts, rest);
      assert s[3..] == Joined(p.parts) + rest;
    }
    if Parse(s) == Accepted(p) {
      var j := Joined(p.parts);
      var trailer := JoinedParts(s[3..]);
      assert s == s[..3] + (j + trailer) == Printed(p) + trailer;
    }
  }

  /** So it is rejected exactly if it is too long or no path prints into it. */
  lemma RejectedForm(s: CString)
    ensures Parse(s).Rejected? <==> |s| > 128 || forall p: Path :: !Prints(p, s)
  {
    hide Prints;
    if Parse(s).Accepted? {
      ParseExact(s, Parse(s).path);
    } else {
      forall p: Path
        ensures |s| <= 128 ==> !Prints(p, s)
      {
        ParseExact(s, p);
      }
    }
  }

  /** What an accepted path consists of: proper parts, few and short enough for the
      128-byte buffer a part is copied into. */
  lemma {:induction false} PartsProper(t: CString)
    ensures forall p | p in Parts(t) :: ProperPart(p) && |p| <= |t|
    ensures 2 * |Parts(t)| <= |t| + 1
    decreases |t|
  {
    if PartLen(t) > 0 {
      PartsProper(AfterPart(t));
    }
  }
}
