/** Event normalisation: turning a decoded feed frame into a token candidate.

    A pool has two sides, `token0` and `token1`. The "main" token is the side
    that is not the wrapped native asset, judged by `token0`'s symbol alone;
    the other side is the "pair". */
module Feed {
  import opened Wrappers

  /** Symbol of the reference asset a new token is usually paired with. */
  const WrappedEther: string := "WETH"

  /** Event kind of a pool-creation frame; every other kind is ignored. */
  const CreateEvent: string := "create"

  /** One side of a pool, as the feed describes it. */
  datatype Token = Token(name: string, symbol: string, id: string)

  /** A frame of the feed after decoding. `Pong` is the liveness answer to a
      ping; `Update` is a JSON payload whose pool sides may be absent. */
  datatype Frame =
    | Pong
    | Update(event: string, token0: Option<Token>, token1: Option<Token>)

  /** The token data a check works on: name, symbol and address of the main
      side, then the same three fields of the pair side. */
  datatype Candidate = Candidate(
    name: string,
    symbol: string,
    contractAddress: string,
    pairName: string,
    pairSymbol: string,
    pairContractAddress: string)
  {
    /** The main side this candidate was built from. */
    function Main(): Token {
      Token(name, symbol, contractAddress)
    }

    /** The pair side this candidate was built from. */
    function Pair(): Token {
      Token(pairName, pairSymbol, pairContractAddress)
    }
  }

  /** A create frame without a `token0` makes the source dereference an
      absent object, which throws. */
  datatype FrameError = MissingFirstToken

  /** Builds the candidate from the two chosen sides; the candidate holds
      exactly the two sides and nothing more. */
  function FromSides(main: Token, pair: Token): (c: Candidate)
    ensures c.Main() == main && c.Pair() == pair
  {
    Candidate(main.name, main.symbol, main.id, pair.name, pair.symbol, pair.id)
  }

  /** Every candidate is determined by its two sides: `FromSides` is a left
      inverse of taking the sides apart. */
  lemma CandidateIsItsSides(c: Candidate)
    ensures FromSides(c.Main(), c.Pair()) == c
  {
  }

  /** The decision of `handleMessage`: `Success(None)` drops the frame,
      `Success(Some(c))` schedules a check of `c`, `Failure` is the throw. */
  function Normalize(frame: Frame): (r: Result<Option<Candidate>, FrameError>)
    ensures frame.Pong? ==> r == Success(None)
    ensures frame.Update? && frame.event != CreateEvent ==> r == Success(None)
    ensures r.Failure? <==> frame.Update? && frame.event == CreateEvent && frame.token0.None?
    ensures r.Success? && r.value.Some? <==>
      frame.Update? && frame.event == CreateEvent && frame.token0.Some? && frame.token1.Some?
    ensures r.Success? && r.value.Some? ==>
      var c := r.value.value;
      var t0 := frame.token0.value;
      var t1 := frame.token1.value;
      if t0.symbol == WrappedEther then c.Main() == t1 && c.Pair() == t0
      else c.Main() == t0 && c.Pair() == t1
  {
    match frame
    case Pong => Success(None)
    case Update(event, token0, token1) =>
      if event != CreateEvent then Success(None)
      else if token0.None? then Failure(MissingFirstToken)
      else
        var main := if token0.value.symbol == WrappedEther then token1 else token0;
        var pair := if token0.value.symbol == WrappedEther then token0 else token1;
        if pair.None? || main.None? then Success(None)
        else Success(Some(FromSides(main.value, pair.value)))
  }

  /** Main and pair are always the two opposite sides of the pool: together
      they are exactly `token0` and `token1`, one each. */
  lemma MainAndPairAreOppositeSides(frame: Frame)
    requires Normalize(frame).Success? && Normalize(frame).value.Some?
    ensures var c := Normalize(frame).value.value;
      multiset{c.Main(), c.Pair()} == multiset{frame.token0.value, frame.token1.value}
  {
  }

  /** A pool whose two sides are both the reference asset is not rejected:
      it yields a candidate whose main token is itself the reference asset. */
  lemma BothSidesWrappedEtherIsNotRejected(t0: Token, t1: Token)
    requires t0.symbol == WrappedEther && t1.symbol == WrappedEther
    ensures Normalize(Update(CreateEvent, Some(t0), Some(t1))) == Success(Some(FromSides(t1, t0)))
    ensures FromSides(t1, t0).symbol == WrappedEther
  {
  }

  /** A pool with no reference-asset side is not rejected either: its main
      token is `token0`, whatever `token1` is. */
  lemma NoWrappedEtherSideTakesFirstToken(t0: Token, t1: Token)
    requires t0.symbol != WrappedEther && t1.symbol != WrappedEther
    ensures Normalize(Update(CreateEvent, Some(t0), Some(t1))) == Success(Some(FromSides(t0, t1)))
  {
  }

  /** The main token is the reference asset only when both sides are. */
  lemma MainIsWrappedEtherOnlyIfBothAre(frame: Frame)
    requires Normalize(frame).Success? && Normalize(frame).value.Some?
    requires Normalize(frame).value.value.symbol == WrappedEther
    ensures frame.token0.value.symbol == WrappedEther && frame.token1.value.symbol == WrappedEther
  {
  }
}
