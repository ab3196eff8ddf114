/**
 * The canister: three string-keyed collections that its update calls change
 * in place and its query calls read. Each update call is proved to do what
 * the matching function of LedgerSpec says and to keep the ledger invariant.
 */
module Canister {
  import opened Records
  import LedgerSpec
  import Listing

  class Ledger {
    var users: map<string, User>
    var tokens: map<string, Token>
    var prizes: map<string, Prize>

    /** The three collections as one value. */
    function State(): LedgerSpec.Db
      reads this
    {
      LedgerSpec.Db(users, tokens, prizes)
    }

    ghost predicate Valid()
      reads this
    {
      LedgerSpec.Valid(State())
    }

    /** The collections as first installed: all empty. */
    constructor ()
      ensures Valid()
      ensures State() == LedgerSpec.Empty
    {
      users, tokens, prizes := map[], map[], map[];
    }

    /** `id` is the freshly generated identifier, `now` the clock reading. */
    method CreateUser(id: string, name: string, password: string, now: Time) returns (r: Result<User>)
      requires Valid()
      requires id !in users
      modifies this
      ensures Valid()
      ensures LedgerSpec.Step(r, State()) == LedgerSpec.CreateUser(old(State()), id, name, password, now)
      ensures r.Err? ==> unchanged(this)
      ensures r.Ok? ==> GetOnceUser(id) == r && |users| == |old(users)| + 1
    {
      if name == "" || password == "" {
        return Err(MissingField);
      }
      var newUser := User(id, name, password, 0, now, None);
      users := users[newUser.id := newUser];
      r := Ok(newUser);
    }

    /** `code` is the freshly generated identifier, which is also the redemption code. */
    method CreateToken(code: string, name: string, point: nat, now: Time) returns (r: Result<Token>)
      requires Valid()
      requires code !in tokens
      modifies this
      ensures Valid()
      ensures LedgerSpec.Step(r, State()) == LedgerSpec.CreateToken(old(State()), code, name, point, now)
      ensures r.Err? ==> unchanged(this)
      ensures r.Ok? ==> code in tokens && tokens[code] == r.value && |tokens| == |old(tokens)| + 1
    {
      if name == "" || point == 0 {
        return Err(MissingField);
      }
      var newToken := Token(name, point, code, now, None);
      tokens := tokens[code := newToken];
      r := Ok(newToken);
    }

    method CreatePrize(id: string, payload: PrizePayload, now: Time) returns (r: Result<Prize>)
      requires Valid()
      requires id !in prizes
      modifies this
      ensures Valid()
      ensures LedgerSpec.Step(r, State()) == LedgerSpec.CreatePrize(old(State()), id, payload, now)
      ensures r.Err? ==> unchanged(this)
      ensures r.Ok? ==> id in prizes && prizes[id] == r.value && |prizes| == |old(prizes)| + 1
    {
      if payload.name == "" || payload.point == 0 || payload.amount == 0 {
        return Err(MissingField);
      }
      var newPrize := Prize(id, payload.name, payload.point, payload.amount, now, None);
      prizes := prizes[id := newPrize];
      r := Ok(newPrize);
    }

    /** getOnceUser: the user stored under `id`, if there is one. */
    function GetOnceUser(id: string): (r: Result<User>)
      reads this
      ensures r.Ok? <==> id in users
      ensures r.Ok? ==> r.value == users[id]
      ensures r.Err? ==> r.error == UserNotFound
    {
      if id in users then Ok(users[id]) else Err(UserNotFound)
    }

    /** getAllUser: every stored user once, in the collection's own order. */
    ghost function GetAllUser(): (r: seq<User>)
      reads this
      ensures |r| == |users|
      ensures forall id :: id in users ==> users[id] in r
      ensures forall i :: 0 <= i < |r| ==> r[i] in users.Values
      ensures Valid() ==> forall i, j :: 0 <= i < j < |r| ==> r[i].id != r[j].id
    {
      Listing.Values(users)
    }

    /** getAllToken: every stored token once, in the collection's own order. */
    ghost function GetAllToken(): (r: seq<Token>)
      reads this
      ensures |r| == |tokens|
      ensures forall code :: code in tokens ==> tokens[code] in r
      ensures forall i :: 0 <= i < |r| ==> r[i] in tokens.Values
      ensures Valid() ==> forall i, j :: 0 <= i < j < |r| ==> r[i].uniqueCode != r[j].uniqueCode
    {
      Listing.Values(tokens)
    }

    /** getAllPrize: every stored prize once, in the collection's own order. */
    ghost function GetAllPrize(): (r: seq<Prize>)
      reads this
      ensures |r| == |prizes|
      ensures forall id :: id in prizes ==> prizes[id] in r
      ensures forall i :: 0 <= i < |r| ==> r[i] in prizes.Values
      ensures Valid() ==> forall i, j :: 0 <= i < j < |r| ==> r[i].id != r[j].id
    {
      Listing.Values(prizes)
    }

    /** redeemToken: credit the user with the token's value; the token stays. */
    method RedeemToken(idUser: string, idToken: string) returns (r: Result<User>)
      requires Valid()
      modifies this
      ensures Valid()
      ensures LedgerSpec.Step(r, State()) == LedgerSpec.RedeemToken(old(State()), idUser, idToken)
      ensures r.Err? ==> unchanged(this)
      ensures tokens == old(tokens) && prizes == old(prizes)
    {
      if idUser !in users {
        return Err(UserNotFound);
      }
      var dataUser := users[idUser];
      if idToken !in tokens {
        return Err(TokenNotFound);
      }
      var dataToken := tokens[idToken];
      dataUser := dataUser.(points := dataUser.points + dataToken.point);
      users := users[idUser := dataUser];
      r := Ok(dataUser);
    }

    /** exchangePrize: debit the price and take one unit of stock, or change nothing. */
    method ExchangePrize(idUser: string, idPrize: string) returns (r: Result<Prize>)
      requires Valid()
      modifies this
      ensures Valid()
      ensures LedgerSpec.Step(r, State()) == LedgerSpec.ExchangePrize(old(State()), idUser, idPrize)
      ensures r.Err? ==> unchanged(this)
      ensures tokens == old(tokens)
    {
      if idUser !in users {
        return Err(UserNotFound);
      }
      var dataUser := users[idUser];
      if idPrize !in prizes {
        return Err(PrizeNotFound);
      }
      var dataPrize := prizes[idPrize];
      if !LedgerSpec.CanExchange(dataUser, dataPrize) {
        return Err(NotEnoughPointsOrStock);
      }
      dataUser := dataUser.(points := dataUser.points - dataPrize.point);
      dataPrize := dataPrize.(amount := dataPrize.amount - 1);
      users := users[idUser := dataUser];
      prizes := prizes[idPrize := dataPrize];
      r := Ok(dataPrize);
    }
  }
}
