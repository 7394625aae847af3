/** `bot_t` and its initialiser. The bot's only state is a 10x10 field of
    scores; the program sets it up and never updates it. */
module Bot {

  import opened Cells

  /** The score every cell starts with (`0.5f`, exact in binary). */
  const BASELINE: real := 0.5

  datatype Bot = Bot(possibilities: seq<seq<real>>)

  /** Every cell has the same score. */
  predicate Uniform(p: seq<seq<real>>)
    requires IsSquare(p)
  {
    forall x, y :: 0 <= x < SIDE && 0 <= y < SIDE ==> p[x][y] == p[0][0]
  }

  /** `bs_bot_init`: zero the structure, then write the baseline into every
      cell, column by column. */
  method BotInit() returns (bot: Bot)
    ensures IsSquare(bot.possibilities)
    ensures forall x, y :: 0 <= x < SIDE && 0 <= y < SIDE ==> bot.possibilities[x][y] == BASELINE
    ensures Uniform(bot.possibilities)
  {
    var p: seq<seq<real>> := seq(SIDE, _ => seq(SIDE, _ => 0.0));
    var x := 0;
    while x < SIDE
      invariant 0 <= x <= SIDE
      invariant IsSquare(p)
      invariant forall i, j :: 0 <= i < SIDE && 0 <= j < SIDE ==> p[i][j] == if i < x then BASELINE else 0.0
    {
      var y := 0;
      while y < SIDE
        invariant 0 <= y <= SIDE
        invariant IsSquare(p)
        invariant forall i, j :: 0 <= i < SIDE && 0 <= j < SIDE ==>
                    p[i][j] == if i < x || (i == x && j < y) then BASELINE else 0.0
      {
        p := p[x := p[x][y := BASELINE]];
        y := y + 1;
      }
      x := x + 1;
    }
    bot := Bot(p);
  }
}
