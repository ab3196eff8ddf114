/**
 * The ledger's three collections as one value, and each state-changing
 * operation as a function from the old collections to its answer and the
 * new collections. This is the specification the canister class is proved
 * against, and the vocabulary of the lemmas about runs of operations.
 */
module LedgerSpec {
  import opened Records

  /** Users keyed by `id`, tokens keyed by `uniqueCode`, prizes keyed by `id`. */
  datatype Db = Db(
    users: map<string, User>,
    tokens: map<string, Token>,
    prizes: map<string, Prize>)

  /** What an operation answers, together with the collections after it. */
  datatype Step<T> = Step(result: Result<T>, db: Db)

  const Empty := Db(map[], map[], map[])

  /**
   * The ledger invariant: every record sits under its own key, names and
   * passwords are non-empty, and token and prize prices are positive.
   */
  ghost predicate Valid(db: Db) {
    && (forall k :: k in db.users ==>
          db.users[k].id == k && db.users[k].username != "" && db.users[k].password != "")
    && (forall k :: k in db.tokens ==>
          db.tokens[k].uniqueCode == k && db.tokens[k].name != "" && db.tokens[k].point > 0)
    && (forall k :: k in db.prizes ==>
          db.prizes[k].id == k && db.prizes[k].name != "" && db.prizes[k].point > 0)
  }

  /**
   * createUser: rejects an empty name or password; otherwise stores a user
   * with no points and no update time under the supplied id.
   */
  function CreateUser(db: Db, id: string, name: string, password: string, now: Time): (s: Step<User>)
    ensures s.result.Err? <==> name == "" || password == ""
    ensures s.result.Err? ==> s.result.error == MissingField && s.db == db
    ensures s.result.Ok? ==>
      && s.result.value == User(id, name, password, 0, now, None)
      && s.db == db.(users := db.users[id := s.result.value])
    ensures s.result.Ok? && id !in db.users ==> |s.db.users| == |db.users| + 1
    ensures Valid(db) ==> Valid(s.db)
  {
    if name == "" || password == "" then Step(Err(MissingField), db)
    else
      var user := User(id, name, password, 0, now, None);
      Step(Ok(user), db.(users := db.users[user.id := user]))
  }

  /**
   * createToken: rejects an empty name or a zero point value; otherwise
   * stores the token under its code.
   */
  function CreateToken(db: Db, code: string, name: string, point: nat, now: Time): (s: Step<Token>)
    ensures s.result.Err? <==> name == "" || point == 0
    ensures s.result.Err? ==> s.result.error == MissingField && s.db == db
    ensures s.result.Ok? ==>
      && s.result.value == Token(name, point, code, now, None)
      && s.db == db.(tokens := db.tokens[code := s.result.value])
    ensures s.result.Ok? && code !in db.tokens ==> |s.db.tokens| == |db.tokens| + 1
    ensures Valid(db) ==> Valid(s.db)
  {
    if name == "" || point == 0 then Step(Err(MissingField), db)
    else
      var token := Token(name, point, code, now, None);
      Step(Ok(token), db.(tokens := db.tokens[code := token]))
  }

  /**
   * createPrize: rejects an empty name, a zero price or a zero stock;
   * otherwise stores the prize under the supplied id.
   */
  function CreatePrize(db: Db, id: string, payload: PrizePayload, now: Time): (s: Step<Prize>)
    ensures s.result.Err? <==> payload.name == "" || payload.point == 0 || payload.amount == 0
    ensures s.result.Err? ==> s.result.error == MissingField && s.db == db
    ensures s.result.Ok? ==>
      && s.result.value == Prize(id, payload.name, payload.point, payload.amount, now, None)
      && s.db == db.(prizes := db.prizes[id := s.result.value])
    ensures s.result.Ok? && id !in db.prizes ==> |s.db.prizes| == |db.prizes| + 1
    ensures Valid(db) ==> Valid(s.db)
  {
    if payload.name == "" || payload.point == 0 || payload.amount == 0 then Step(Err(MissingField), db)
    else
      var prize := Prize(id, payload.name, payload.point, payload.amount, now, None);
      Step(Ok(prize), db.(prizes := db.prizes[id := prize]))
  }

  /**
   * redeemToken: credits the user with the token's point value. Only the
   * user's `points` changes; the token is not consumed.
   */
  function RedeemToken(db: Db, idUser: string, idToken: string): (s: Step<User>)
    ensures s.result.Err? ==> s.db == db
    ensures s.result.Ok? <==> idUser in db.users && idToken in db.tokens
    ensures s.result == Err(UserNotFound) <==> idUser !in db.users
    ensures s.result == Err(TokenNotFound) <==> idUser in db.users && idToken !in db.tokens
    ensures s.result.Ok? ==>
      && idUser in db.users && idToken in db.tokens
      && s.result.value.points == db.users[idUser].points + db.tokens[idToken].point
      && s.result.value == db.users[idUser].(points := s.result.value.points)
      && s.db == db.(users := db.users[idUser := s.result.value])
    ensures s.db.tokens == db.tokens && s.db.prizes == db.prizes
    ensures Valid(db) ==> Valid(s.db)
  {
    if idUser !in db.users then Step(Err(UserNotFound), db)
    else if idToken !in db.tokens then Step(Err(TokenNotFound), db)
    else
      var user := db.users[idUser];
      var credited := user.(points := user.points + db.tokens[idToken].point);
      Step(Ok(credited), db.(users := db.users[idUser := credited]))
  }

  /** The combined guard of an exchange: enough points, and stock left. */
  predicate CanExchange(user: User, prize: Prize) {
    !(prize.point > user.points || prize.amount == 0)
  }

  /**
   * exchangePrize: debits the prize's price from the user and takes one unit
   * of stock, both or neither; answers the prize as written back.
   */
  function ExchangePrize(db: Db, idUser: string, idPrize: string): (s: Step<Prize>)
    ensures s.result.Err? ==> s.db == db
    ensures s.result.Ok? <==>
      idUser in db.users && idPrize in db.prizes && CanExchange(db.users[idUser], db.prizes[idPrize])
    ensures s.result == Err(UserNotFound) <==> idUser !in db.users
    ensures s.result == Err(PrizeNotFound) <==> idUser in db.users && idPrize !in db.prizes
    ensures s.result == Err(NotEnoughPointsOrStock) <==>
      && idUser in db.users && idPrize in db.prizes
      && !CanExchange(db.users[idUser], db.prizes[idPrize])
    ensures s.result.Ok? ==>
      && idUser in db.users && idPrize in db.prizes
      && var user, prize := db.users[idUser], db.prizes[idPrize];
      && prize.point <= user.points && 0 < prize.amount
      && s.result.value == prize.(amount := prize.amount - 1)
      && s.db == db.(users := db.users[idUser := user.(points := user.points - prize.point)],
                     prizes := db.prizes[idPrize := s.result.value])
    ensures s.db.tokens == db.tokens
    ensures Valid(db) ==> Valid(s.db)
  {
    if idUser !in db.users then Step(Err(UserNotFound), db)
    else if idPrize !in db.prizes then Step(Err(PrizeNotFound), db)
    else
      var user, prize := db.users[idUser], db.prizes[idPrize];
      if !CanExchange(user, prize) then Step(Err(NotEnoughPointsOrStock), db)
      else
        var debited := user.(points := user.points - prize.point);
        var taken := prize.(amount := prize.amount - 1);
        Step(Ok(taken), db.(users := db.users[idUser := debited], prizes := db.prizes[idPrize := taken]))
  }
}
