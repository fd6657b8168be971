/**
 * Strategy configuration of the matcher (class Matcher in matcher.h).
 *
 * A matcher carries the mask half-length W, the mask mode R, the gate
 * maxCond of the global-minimum scorer, the south-east check flag and the
 * number of scale levels. The fields are set once by a constructor and only
 * read afterwards, so the configuration is a value here.
 */
module Config {
  /** The matching strategies, in declaration order. */
  datatype MatchMode = MorbRM | MorbD | MorbC | MorbCSec | MorbWC | MorbWCSec | CORB

  datatype Option<T> = None | Some(value: T)

  /** The enumerator value of a strategy. */
  function Code(m: MatchMode): (c: int)
    ensures 0 <= c <= 6
  {
    match m
    case MorbRM => 0
    case MorbD => 1
    case MorbC => 2
    case MorbCSec => 3
    case MorbWC => 4
    case MorbWCSec => 5
    case CORB => 6
  }

  /** The strategy with enumerator value c, if there is one. */
  function FromCode(c: int): (m: Option<MatchMode>)
    ensures m.None? <==> c < 0 || c > 6
  {
    match c
    case 0 => Some(MorbRM)
    case 1 => Some(MorbD)
    case 2 => Some(MorbC)
    case 3 => Some(MorbCSec)
    case 4 => Some(MorbWC)
    case 5 => Some(MorbWCSec)
    case 6 => Some(CORB)
    case _ => None
  }

  /** Enumerator values and strategies correspond one to one. */
  lemma CodeRoundTrip(m: MatchMode, c: int)
    ensures FromCode(Code(m)) == Some(m)
    ensures FromCode(c) == Some(m) ==> Code(m) == c
  { }

  datatype Matcher = Matcher(W: int, R: int, maxCond: int, southEastCheck: bool, nLevels: int)

  /** The default constructor. */
  function DefaultMatcher(): Matcher {
    Matcher(0, 0, 0, false, 8)
  }

  /** The configuration constructor: the switch over the strategy number. */
  function Configure(W: int, R: int, nLevels: int, strategy: int): (m: Matcher)
    ensures m.maxCond == 0
    ensures m.southEastCheck <==> strategy == 3 || strategy == 5
    ensures strategy == 6 ==> m.W == 0 && m.R == -1
    ensures strategy != 6 ==> m.W == W && m.R == R
    ensures m.nLevels == nLevels
  {
    var m := Matcher(W, R, 0, false, nLevels);
    match strategy
    case 0 => m.(maxCond := 0, southEastCheck := false)
    case 1 => m.(maxCond := 0, southEastCheck := false)
    case 2 => m.(maxCond := 0, southEastCheck := false)
    case 3 => m.(maxCond := 0, southEastCheck := true)
    case 4 => m.(maxCond := 0, southEastCheck := false)
    case 5 => m.(maxCond := 0, southEastCheck := true)
    case 6 => m.(maxCond := 0, southEastCheck := false, W := 0, R := -1)
    case _ => m.(maxCond := 0, southEastCheck := false)
  }

  /** The default matcher is the RM configuration with W = 0, R = 0 and eight levels. */
  lemma DefaultIsRM()
    ensures DefaultMatcher() == Configure(0, 0, 8, Code(MorbRM))
  { }

  /** Only the two strategies with the south-east check switch it on; cORB is the only one that overrides W and R. */
  lemma ConfigureByMode(W: int, R: int, nLevels: int, mode: MatchMode)
    ensures Configure(W, R, nLevels, Code(mode)).southEastCheck <==> mode == MorbCSec || mode == MorbWCSec
    ensures Configure(W, R, nLevels, Code(mode)).(W := W, R := R) == Matcher(W, R, 0, mode == MorbCSec || mode == MorbWCSec, nLevels)
  { }

  /** The block scorer that multiScaleMatching calls for each strategy. */
  datatype Scorer = GlobalMin | DiagonalMin | Masked(wma: bool)

  /** The dispatch of the block loop; an out-of-range mode falls back to the global minimum. */
  function ScorerFor(mm: int): (s: Scorer)
    ensures s == DiagonalMin <==> mm == 1
    ensures s.Masked? <==> 2 <= mm <= 6
    ensures s == GlobalMin <==> FromCode(mm) == Some(MorbRM) || FromCode(mm).None?
    ensures s.Masked? ==> (s.wma <==> mm == 4 || mm == 5)
  {
    match mm
    case 0 => GlobalMin
    case 1 => DiagonalMin
    case 2 => Masked(false)
    case 3 => Masked(false)
    case 4 => Masked(true)
    case 5 => Masked(true)
    case 6 => Masked(false)
    case _ => GlobalMin
  }
}
