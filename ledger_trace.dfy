/**
 * Runs of state-changing operations, processed one at a time to completion,
 * and what holds of every run: the invariant is kept, no record is ever
 * removed, stock is never oversold, a balance is its credits minus its
 * debits, and tokens are never consumed.
 */
module LedgerTrace {
  import opened Records
  import opened LedgerSpec

  /** One call of a state-changing operation, with its fresh id and clock reading. */
  datatype Op =
    | CreateUserOp(id: string, name: string, password: string, now: Time)
    | CreateTokenOp(code: string, name: string, point: nat, now: Time)
    | CreatePrizeOp(id: string, payload: PrizePayload, now: Time)
    | RedeemOp(idUser: string, idToken: string)
    | ExchangeOp(idUser: string, idPrize: string)

  /** The collections after one operation, whatever it answered. */
  function Apply(db: Db, op: Op): (db': Db)
    ensures Valid(db) ==> Valid(db')
    ensures db.users.Keys <= db'.users.Keys
    ensures db.tokens.Keys <= db'.tokens.Keys
    ensures db.prizes.Keys <= db'.prizes.Keys
  {
    match op
    case CreateUserOp(id, name, password, now) => CreateUser(db, id, name, password, now).db
    case CreateTokenOp(code, name, point, now) => CreateToken(db, code, name, point, now).db
    case CreatePrizeOp(id, payload, now) => CreatePrize(db, id, payload, now).db
    case RedeemOp(idUser, idToken) => RedeemToken(db, idUser, idToken).db
    case ExchangeOp(idUser, idPrize) => ExchangePrize(db, idUser, idPrize).db
  }

  /** The collections after a whole run of operations, in order. */
  function Run(db: Db, ops: seq<Op>): Db
    decreases |ops|
  {
    if ops == [] then db else Run(Apply(db, ops[0]), ops[1..])
  }

  lemma {:induction false} RunKeepsValid(db: Db, ops: seq<Op>)
    requires Valid(db)
    ensures Valid(Run(db, ops))
    decreases |ops|
  {
    if ops != [] {
      RunKeepsValid(Apply(db, ops[0]), ops[1..]);
    }
  }

  /** Records are never deleted: every key present before a run is present after it. */
  lemma {:induction false} RunNeverDeletes(db: Db, ops: seq<Op>)
    ensures db.users.Keys <= Run(db, ops).users.Keys
    ensures db.tokens.Keys <= Run(db, ops).tokens.Keys
    ensures db.prizes.Keys <= Run(db, ops).prizes.Keys
    decreases |ops|
  {
    if ops != [] {
      RunNeverDeletes(Apply(db, ops[0]), ops[1..]);
    }
  }

  /** The units of prize `pid` that one operation hands out (0 or 1). */
  function UnitsTaken(db: Db, op: Op, pid: string): nat {
    if op.ExchangeOp? && op.idPrize == pid && ExchangePrize(db, op.idUser, op.idPrize).result.Ok? then 1 else 0
  }

  /** The number of successful exchanges of prize `pid` along a run. */
  function Exchanged(db: Db, ops: seq<Op>, pid: string): nat
    decreases |ops|
  {
    if ops == [] then 0 else UnitsTaken(db, ops[0], pid) + Exchanged(Apply(db, ops[0]), ops[1..], pid)
  }

  /** No operation of the run re-creates prize `pid`. */
  ghost predicate KeepsPrize(ops: seq<Op>, pid: string) {
    forall i :: 0 <= i < |ops| ==> !(ops[i].CreatePrizeOp? && ops[i].id == pid)
  }

  /**
   * Stock is conserved: what is left plus what was exchanged is what there
   * was, so a prize is never exchanged more often than its stock allows.
   */
  lemma {:induction false} StockConservation(db: Db, ops: seq<Op>, pid: string)
    requires pid in db.prizes
    requires KeepsPrize(ops, pid)
    ensures pid in Run(db, ops).prizes
    ensures Run(db, ops).prizes[pid].amount + Exchanged(db, ops, pid) == db.prizes[pid].amount
    ensures Exchanged(db, ops, pid) <= db.prizes[pid].amount
    decreases |ops|
  {
    if ops != [] {
      var next := Apply(db, ops[0]);
      assert pid in next.prizes && next.prizes[pid].amount + UnitsTaken(db, ops[0], pid) == db.prizes[pid].amount;
      assert KeepsPrize(ops[1..], pid) by {
        forall i | 0 <= i < |ops[1..]| ensures !(ops[1..][i].CreatePrizeOp? && ops[1..][i].id == pid) {
          assert ops[1..][i] == ops[i + 1];
        }
      }
      StockConservation(next, ops[1..], pid);
    }
  }

  /** The points one operation credits to user `uid` (a successful redemption). */
  function Credit(db: Db, op: Op, uid: string): nat {
    if op.RedeemOp? && op.idUser == uid && op.idUser in db.users && op.idToken in db.tokens
    then db.tokens[op.idToken].point
    else 0
  }

  /** The points one operation debits from user `uid` (a successful exchange). */
  function Debit(db: Db, op: Op, uid: string): nat {
    if op.ExchangeOp? && op.idUser == uid && ExchangePrize(db, op.idUser, op.idPrize).result.Ok?
    then db.prizes[op.idPrize].point
    else 0
  }

  function Credited(db: Db, ops: seq<Op>, uid: string): nat
    decreases |ops|
  {
    if ops == [] then 0 else Credit(db, ops[0], uid) + Credited(Apply(db, ops[0]), ops[1..], uid)
  }

  function Debited(db: Db, ops: seq<Op>, uid: string): nat
    decreases |ops|
  {
    if ops == [] then 0 else Debit(db, ops[0], uid) + Debited(Apply(db, ops[0]), ops[1..], uid)
  }

  /** No operation of the run re-creates user `uid`. */
  ghost predicate KeepsUser(ops: seq<Op>, uid: string) {
    forall i :: 0 <= i < |ops| ==> !(ops[i].CreateUserOp? && ops[i].id == uid)
  }

  /**
   * A balance only moves by redemptions and exchanges: the final balance
   * plus everything debited equals the initial balance plus everything
   * credited, so the debits never exceed what the user had and earned.
   */
  lemma {:induction false} BalanceEquation(db: Db, ops: seq<Op>, uid: string)
    requires uid in db.users
    requires KeepsUser(ops, uid)
    ensures uid in Run(db, ops).users
    ensures Run(db, ops).users[uid].points + Debited(db, ops, uid)
         == db.users[uid].points + Credited(db, ops, uid)
    decreases |ops|
  {
    if ops != [] {
      var next := Apply(db, ops[0]);
      assert uid in next.users
        && next.users[uid].points + Debit(db, ops[0], uid) == db.users[uid].points + Credit(db, ops[0], uid);
      assert KeepsUser(ops[1..], uid) by {
        forall i | 0 <= i < |ops[1..]| ensures !(ops[1..][i].CreateUserOp? && ops[1..][i].id == uid) {
          assert ops[1..][i] == ops[i + 1];
        }
      }
      BalanceEquation(next, ops[1..], uid);
    }
  }

  /** No operation of the run re-creates the token with code `code`. */
  ghost predicate KeepsToken(ops: seq<Op>, code: string) {
    forall i :: 0 <= i < |ops| ==> !(ops[i].CreateTokenOp? && ops[i].code == code)
  }

  /** A token outlives any run that does not re-create it, unchanged. */
  lemma {:induction false} TokenSurvives(db: Db, ops: seq<Op>, code: string)
    requires code in db.tokens
    requires KeepsToken(ops, code)
    ensures code in Run(db, ops).tokens && Run(db, ops).tokens[code] == db.tokens[code]
    decreases |ops|
  {
    if ops != [] {
      var next := Apply(db, ops[0]);
      assert code in next.tokens && next.tokens[code] == db.tokens[code];
      assert KeepsToken(ops[1..], code) by {
        forall i | 0 <= i < |ops[1..]| ensures !(ops[1..][i].CreateTokenOp? && ops[1..][i].code == code) {
          assert ops[1..][i] == ops[i + 1];
        }
      }
      TokenSurvives(next, ops[1..], code);
    }
  }

  /**
   * Tokens are never consumed: after any run, any existing user can still
   * redeem an earlier token for its full value.
   */
  lemma TokenStillRedeemable(db: Db, ops: seq<Op>, code: string, uid: string)
    requires code in db.tokens
    requires KeepsToken(ops, code)
    requires uid in Run(db, ops).users
    ensures RedeemToken(Run(db, ops), uid, code).result.Ok?
    ensures RedeemToken(Run(db, ops), uid, code).result.value.points
         == Run(db, ops).users[uid].points + db.tokens[code].point
  {
    TokenSurvives(db, ops, code);
  }
}
