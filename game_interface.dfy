/** The game engine the agents query, reduced to the queries they make. */
module GameInterface {

  datatype Option<T> = None | Some(value: T)

  /** A grid position. */
  datatype Pos = Pos(x: int, y: int)

  function Abs(z: int): nat {
    if z < 0 then -z else z
  }

  /** Manhattan distance, the only distance the agents use. */
  function Manhattan(p: Pos, q: Pos): (d: nat)
    ensures d == 0 <==> p == q
  {
    Abs(p.x - q.x) + Abs(p.y - q.y)
  }

  /** What an evaluation function reads off one state, for one agent index. */
  datatype StateView = StateView(
    pacman: Pos,          // position of the agent being evaluated
    food: seq<Pos>,       // remaining food, in the engine's listing order
    numFood: nat,         // the engine's food count
    capsules: seq<Pos>,   // remaining capsules
    ghosts: seq<Pos>,     // ghost positions, in agent order
    score: real)          // the agent's score

  /** The engine: how many agents there are, which actions each may take,
      the successor states, the terminal tests and the view of a state. */
  datatype Game<!S, !A> = Game(
    numAgents: nat,
    legalActions: (S, nat) -> seq<A>,
    successor: (S, nat, A) -> S,
    pacmanSuccessor: (S, nat, A) -> S,
    isWin: S -> bool,
    isLose: S -> bool,
    view: (S, nat) -> StateView)
}
