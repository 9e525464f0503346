/** The parts of a game session and of its options that the session
    registry reads. Everything else about a game (its players, its
    messages, its state machine) belongs to the game itself and is not
    part of this model. */
module Games {

  /** A C# `uint`: the underlying type of the keyword flags. */
  newtype UInt32 = x: int | 0 <= x < 0x1_0000_0000

  /** A C# `byte`: the map identifier. */
  newtype Byte = x: int | 0 <= x < 0x100

  /** The language tag of a lobby (`GameKeywords`, a flags enumeration);
      the registry only compares two tags for equality. */
  type Keywords = UInt32

  /** The lifecycle states of a game. The listing scan only asks whether a
      game is still `NotStarted`. */
  datatype GameState = NotStarted | Started | Ended

  /** The matchmaking options of a game that the listing scan can look at. */
  datatype GameOptions = GameOptions(mapId: Byte, numImpostors: int, keywords: Keywords)

  /** A game session. Its code is fixed at construction; its visibility,
      state, player count and options are changed in place by the game's
      own logic, so the registry holds references and sees those changes. */
  class Game {
    const code: int
    var options: GameOptions
    var isPublic: bool
    var gameState: GameState
    var playerCount: nat

    /** Only the code and the options are given by the registry; the
        initial values of the other fields are the game's own business and
        nothing here relies on them. */
    constructor (code: int, options: GameOptions)
      ensures this.code == code && this.options == options
    {
      this.code := code;
      this.options := options;
    }
  }
}
