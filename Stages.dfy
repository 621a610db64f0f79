/** The fixed order of manufacturing stages a spool moves through, and the
    status flags that sit beside a stage (main.py:57-82). */
module Stages {
  import opened Wrappers

  /** The five lifecycle stages. */
  datatype Stage = Fabricacao | Logistica1 | Pintura | Logistica2 | Bordo

  /** The status flags; they carry no order and any of them may go with any stage. */
  datatype Status = Pendente | Liberado | Bloqueado
  {
    function Value(): string
    {
      match this
      case Pendente => "PENDENTE"
      case Liberado => "LIBERADO"
      case Bloqueado => "BLOQUEADO"
    }
  }

  /** The stages in the order a spool goes through them. */
  const STAGE_ORDER: seq<Stage> := [Fabricacao, Logistica1, Pintura, Logistica2, Bordo]

  /** The position of a stage in the production flow, written independently of
      STAGE_ORDER so that the list can be checked against it. */
  function Rank(s: Stage): nat
  {
    match s
    case Fabricacao => 0
    case Logistica1 => 1
    case Pintura => 2
    case Logistica2 => 3
    case Bordo => 4
  }

  /** The position of the first occurrence of `x` in `s`, as a list's `index` gives it. */
  function IndexOf<T(==)>(s: seq<T>, x: T): (i: nat)
    requires x in s
    ensures i < |s| && s[i] == x
    ensures x !in s[..i]
  {
    if s[0] == x then 0
    else
      assert s == [s[0]] + s[1..];
      var j := IndexOf(s[1..], x);
      assert s[..j + 1] == [s[0]] + s[1..][..j];
      j + 1
  }

  /** The stage just before `stage` in STAGE_ORDER, or None for the first one. */
  function PrevStage(stage: Stage): (r: Option<Stage>)
    ensures r.None? <==> stage == Fabricacao
    ensures r.Some? ==> Rank(r.value) + 1 == Rank(stage)
  {
    assert STAGE_ORDER[Rank(stage)] == stage;
    var i := IndexOf(STAGE_ORDER, stage);
    if i > 0 then Some(STAGE_ORDER[i - 1]) else None
  }

  /** STAGE_ORDER lists every stage exactly once, each at its rank. */
  lemma StageOrderListsEachStageOnce()
    ensures |STAGE_ORDER| == 5
    ensures forall s: Stage :: STAGE_ORDER[Rank(s)] == s
    ensures forall i, j :: 0 <= i < j < |STAGE_ORDER| ==> STAGE_ORDER[i] != STAGE_ORDER[j]
  {
  }

  /** The predecessor of the stage at position i is the one at position i - 1,
      and the first stage has none. */
  lemma PrevStageAt(i: nat)
    requires i < |STAGE_ORDER|
    ensures PrevStage(STAGE_ORDER[i]) == if i > 0 then Some(STAGE_ORDER[i - 1]) else None
  {
    StageOrderListsEachStageOnce();
    var r := PrevStage(STAGE_ORDER[i]);
    if i > 0 {
      assert Rank(r.value) == i - 1;
      assert STAGE_ORDER[Rank(r.value)] == r.value;
    }
  }

  /** Distinct stages have distinct predecessors: the predecessor relation is a
      chain, never a branching. */
  lemma PrevStageInjective(a: Stage, b: Stage)
    requires PrevStage(a).Some? && PrevStage(a) == PrevStage(b)
    ensures a == b
  {
  }

  /** Stepping back Rank(s) times from any stage reaches the first stage. */
  function StepsBack(s: Stage, n: nat): (r: Option<Stage>)
    decreases n
  {
    if n == 0 then Some(s)
    else match PrevStage(s)
      case None => None
      case Some(p) => StepsBack(p, n - 1)
  }

  lemma {:induction false} StepsBackReachesFirst(s: Stage)
    ensures StepsBack(s, Rank(s)) == Some(Fabricacao)
    ensures StepsBack(s, Rank(s) + 1) == None
    decreases Rank(s)
  {
    match PrevStage(s)
    case None =>
    case Some(p) => StepsBackReachesFirst(p);
  }
}
