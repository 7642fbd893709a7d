/** The self-contained bookkeeping and decision rules of the Derive spot connector
    (`DeriveExchange`): balance reconciliation, the exchange-symbol map, the order payload of
    `_place_order`, cancel-result classification, user-stream routing, the supported order
    types and the order-not-found tests. Network calls are replaced by their decoded
    responses, passed in as values. */
module Derive {
  import opened Wrappers
  import opened Text

  /** hummingbot's `OrderType` enum (its definition is not part of this model). */
  datatype OrderType = Market | Limit | LimitMaker | AmmSwap

  /** hummingbot's `TradeType` enum (its definition is not part of this model). */
  datatype TradeType = Buy | Sell | Range

  /** `order_type.name`. */
  function OrderTypeName(t: OrderType): (r: string)
    ensures |r| > 0 && forall i :: 0 <= i < |r| ==> 'A' <= r[i] <= 'Z' || r[i] == '_'
  {
    match t
    case Market => "MARKET"
    case Limit => "LIMIT"
    case LimitMaker => "LIMIT_MAKER"
    case AmmSwap => "AMM_SWAP"
  }

  /** Different order types have different names. */
  lemma OrderTypeNameInjective(a: OrderType, b: OrderType)
    requires OrderTypeName(a) == OrderTypeName(b)
    ensures a == b
  {
  }

  /** `supported_order_types`: every order type except AMM swaps, each once. */
  function SupportedOrderTypes(): (r: seq<OrderType>)
    ensures Limit in r && LimitMaker in r && Market in r && AmmSwap !in r
    ensures forall i, j :: 0 <= i < j < |r| ==> r[i] != r[j]
  {
    [Limit, LimitMaker, Market]
  }

  // ---------------------------------------------------------------------------
  // Order payload of `_place_order`.

  const GoodTillCancel := "Gtc"
  const FillOrKill := "fok"
  const ImmediateOrCancel := "ioc"

  /** The time-in-force the exchange is asked for, per order type (AMM swaps fall back to
      the default). */
  function TimeInForce(t: OrderType): (r: string)
    ensures r == FillOrKill <==> t == LimitMaker
    ensures r == ImmediateOrCancel <==> t == Market
    ensures r == GoodTillCancel <==> t == Limit || t == AmmSwap
  {
    match t
    case LimitMaker => FillOrKill
    case Market => ImmediateOrCancel
    case _ => GoodTillCancel
  }

  /** The supported order types are told apart by their time-in-force. */
  lemma TimeInForceDistinguishesSupported(a: OrderType, b: OrderType)
    requires a in SupportedOrderTypes() && b in SupportedOrderTypes()
    requires TimeInForce(a) == TimeInForce(b)
    ensures a == b
  {
  }

  /** `"buy" if trade_type is TradeType.BUY else "sell"`. */
  function Direction(t: TradeType): (d: string)
    ensures d == "buy" || d == "sell"
    ensures d == "buy" <==> t == Buy
  {
    if t == Buy then "buy" else "sell"
  }

  /** `is_bid` as written, `True if TradeType.BUY else False`: it tests the enum member
      `BUY` itself, not the order's trade type, and an enum member without `__bool__` is
      always truthy, so the condition holds whatever `t` is. */
  function IsBidAsWritten(t: TradeType): (isBid: bool)
    ensures isBid
  {
    true
  }

  /** A sell order is sent as a bid while its direction says "sell". */
  lemma SellOrderSentAsBid()
    ensures IsBidAsWritten(Sell) && Direction(Sell) == "sell"
  {
  }

  /** The intended `is_bid`: the order buys. */
  function IsBid(t: TradeType): (isBid: bool)
    ensures isBid <==> Direction(t) == "buy"
  {
    t == Buy
  }

  /** One entry of `_instrument_ticker` (only the fields this model reads). */
  datatype Instrument = Instrument(instrumentName: string, baseAssetAddress: string, baseAssetSubId: string)

  /** `i` is the first position of `ticker` whose instrument name is `symbol`. */
  predicate IsFirstMatch(ticker: seq<Instrument>, symbol: string, i: int)
  {
    0 <= i < |ticker| && ticker[i].instrumentName == symbol
    && forall j :: 0 <= j < i ==> ticker[j].instrumentName != symbol
  }

  /** The request body `_place_order` posts. `limitPrice` and `amount` are `str(price)` and
      `str(amount)`, taken as given text. */
  datatype OrderPayload = OrderPayload(
    assetAddress: string,
    subId: string,
    limitPrice: string,
    kind: string,
    maxFee: string,
    amount: string,
    instrumentName: string,
    orderLabel: string,
    isBid: bool,
    direction: string,
    orderType: string,
    mmp: bool,
    timeInForce: string,
    recipientId: nat)

  /** `instrument[0]` on an empty list raises `IndexError`. */
  datatype PlaceOrderError = NoInstrument(symbol: string)

  // ---------------------------------------------------------------------------
  // Balance reconciliation.

  /** One collateral of the account response; `amount` is the parsed `Decimal`. */
  datatype BalanceEntry = BalanceEntry(assetName: string, amount: real)

  /** The balances after writing every entry in order: a later entry of an asset overwrites
      an earlier one. */
  function LastAmounts(bs: seq<BalanceEntry>): (r: map<string, real>)
    // every balance is the amount of some entry of that asset
    ensures forall a :: a in r ==> exists i :: 0 <= i < |bs| && bs[i].assetName == a && bs[i].amount == r[a]
  {
    if |bs| == 0 then map[]
    else
      var init := bs[..|bs| - 1];
      assert forall i :: 0 <= i < |init| ==> init[i] == bs[i];
      LastAmounts(init)[bs[|bs| - 1].assetName := bs[|bs| - 1].amount]
  }

  function AssetNames(bs: seq<BalanceEntry>): set<string>
  {
    set i | 0 <= i < |bs| :: bs[i].assetName
  }

  /** Entry `i` is the last one for its asset. */
  predicate IsLastEntry(bs: seq<BalanceEntry>, i: int)
  {
    0 <= i < |bs| && forall j :: i < j < |bs| ==> bs[j].assetName != bs[i].assetName
  }

  /** The reconciled balances hold exactly the assets of the response. */
  lemma {:induction false} LastAmountsKeys(bs: seq<BalanceEntry>)
    ensures LastAmounts(bs).Keys == AssetNames(bs)
  {
    if |bs| > 0 {
      var init := bs[..|bs| - 1];
      LastAmountsKeys(init);
      assert AssetNames(bs) == AssetNames(init) + {bs[|bs| - 1].assetName} by {
        forall a | a in AssetNames(bs) ensures a in AssetNames(init) + {bs[|bs| - 1].assetName} {
          var i :| 0 <= i < |bs| && bs[i].assetName == a;
          if i < |bs| - 1 {
            assert init[i] == bs[i];
          }
        }
        forall a | a in AssetNames(init) ensures a in AssetNames(bs) {
          var i :| 0 <= i < |init| && init[i].assetName == a;
          assert bs[i] == init[i];
        }
      }
    }
  }

  /** Each asset's balance is the amount of its last entry. */
  lemma {:induction false} LastAmountsValue(bs: seq<BalanceEntry>, i: int)
    requires IsLastEntry(bs, i)
    ensures bs[i].assetName in LastAmounts(bs)
    ensures LastAmounts(bs)[bs[i].assetName] == bs[i].amount
  {
    if i < |bs| - 1 {
      var init := bs[..|bs| - 1];
      assert init[i] == bs[i];
      LastAmountsValue(init, i);
    }
  }

  /** Writing one asset into a dictionary overlaid with new balances writes it into the
      overlay. */
  lemma OverlayUpdate(m: map<string, real>, l: map<string, real>, k: string, v: real)
    ensures (m + l)[k := v] == m + l[k := v]
  {
  }

  /** Deleting the local assets the response lacks leaves exactly the response's balances. */
  lemma OverlayPruned(m: map<string, real>, l: map<string, real>)
    ensures (m + l) - (m.Keys - l.Keys) == l
  {
  }

  /** Deleting one more stale asset. */
  lemma PruneStep(merged: map<string, real>, stale: set<string>, rest: set<string>, a: string)
    requires a in rest && rest <= stale
    ensures (merged - (stale - rest)) - {a} == merged - (stale - (rest - {a}))
  {
  }

  // ---------------------------------------------------------------------------
  // Exchange-symbol map.

  /** `combine_to_hb_trading_pair(base, quote)`: hummingbot's `BASE-QUOTE` form. */
  function CombineToHbTradingPair(base: string, quote: string): (r: string)
    // hyphen-free halves are recovered by splitting at the hyphen
    ensures '-' !in base && '-' !in quote ==> Split(r, '-') == [base, quote]
  {
    var r := base + "-" + quote;
    assert Join([base, quote], '-') == r;
    if '-' !in base && '-' !in quote then SplitJoin([base, quote], '-'); r else r
  }

  /** `base, quote = name.split("-")` fails with `ValueError` unless there are exactly two
      parts; assigning a trading pair a second key raises bidict's `ValueDuplicationError`. */
  datatype SymbolMapError = UnsplittableName(name: string) | ValueDuplication(name: string)

  /** A name the unpacking accepts: exactly one hyphen. */
  predicate SingleHyphen(name: string)
  {
    |Split(name, '-')| == 2
  }

  /** `mapping[name] = pair` on a bidict: a pair already held by another key is refused. */
  function AddSymbol(m: map<string, string>, name: string): (r: Result<map<string, string>, SymbolMapError>)
    ensures r == Err(UnsplittableName(name)) <==> !SingleHyphen(name)
    ensures r.Err? ==> r.error.name == name
    ensures r.Ok? ==> r.value.Keys == m.Keys + {name}
    ensures r.Ok? ==> forall k :: k in m && k != name ==> r.value[k] == m[k]
    // the bidict stays injective when it was
    ensures r.Ok? && (forall j, k :: j in m && k in m && j != k ==> m[j] != m[k]) ==>
      forall j, k :: j in r.value && k in r.value && j != k ==> r.value[j] != r.value[k]
  {
    var parts := Split(name, '-');
    if |parts| != 2 then Err(UnsplittableName(name))
    else
      var pair := CombineToHbTradingPair(parts[0], parts[1]);
      if exists k :: k in m && k != name && m[k] == pair then Err(ValueDuplication(name))
      else Ok(m[name := pair])
  }

  /** The bidict built from the valid entries of `infos`, in order; the first error wins. */
  function SymbolMap(infos: seq<Instrument>, isValid: Instrument -> bool): (r: Result<map<string, string>, SymbolMapError>)
    // an error names a valid entry of the response
    ensures r.Err? ==> exists i :: 0 <= i < |infos| && isValid(infos[i]) && infos[i].instrumentName == r.error.name
  {
    if |infos| == 0 then Ok(map[])
    else
      assert forall i :: 0 <= i < |infos| - 1 ==> infos[..|infos| - 1][i] == infos[i];
      match SymbolMap(infos[..|infos| - 1], isValid)
      case Err(e) => Err(e)
      case Ok(m) =>
        var last := infos[|infos| - 1];
        if isValid(last) then AddSymbol(m, last.instrumentName) else Ok(m)
  }

  /** Rejoining the two halves of a single-hyphen name gives the name back. */
  lemma CombineSplit(name: string)
    requires SingleHyphen(name)
    ensures CombineToHbTradingPair(Split(name, '-')[0], Split(name, '-')[1]) == name
  {
    var parts := Split(name, '-');
    JoinSplit(name, '-');
    assert parts[1..] == [parts[1]];
  }

  /** The names of the valid entries. */
  function ValidNames(infos: seq<Instrument>, isValid: Instrument -> bool): set<string>
  {
    set i | 0 <= i < |infos| && isValid(infos[i]) :: infos[i].instrumentName
  }

  /** Every valid entry's name has exactly one hyphen. */
  predicate AllSingleHyphen(infos: seq<Instrument>, isValid: Instrument -> bool)
  {
    forall i :: 0 <= i < |infos| && isValid(infos[i]) ==> SingleHyphen(infos[i].instrumentName)
  }

  /** `m` maps exactly `names`, each to itself. */
  predicate IdentityOn(m: map<string, string>, names: set<string>)
  {
    m.Keys == names && forall k :: k in m ==> m[k] == k
  }

  lemma ValidNamesSnoc(infos: seq<Instrument>, isValid: Instrument -> bool)
    requires |infos| > 0
    ensures var last := infos[|infos| - 1];
      ValidNames(infos, isValid) ==
        ValidNames(infos[..|infos| - 1], isValid) + (if isValid(last) then {last.instrumentName} else {})
  {
    var init := infos[..|infos| - 1];
    forall a | a in ValidNames(infos, isValid) ensures a in ValidNames(init, isValid) || a == infos[|infos| - 1].instrumentName {
      var i :| 0 <= i < |infos| && isValid(infos[i]) && infos[i].instrumentName == a;
      if i < |infos| - 1 {
        assert init[i] == infos[i];
      }
    }
    forall a | a in ValidNames(init, isValid) ensures a in ValidNames(infos, isValid) {
      var i :| 0 <= i < |init| && isValid(init[i]) && init[i].instrumentName == a;
      assert infos[i] == init[i];
    }
  }

  lemma AllSingleHyphenSnoc(infos: seq<Instrument>, isValid: Instrument -> bool)
    requires |infos| > 0
    ensures var last := infos[|infos| - 1];
      AllSingleHyphen(infos, isValid) <==>
        AllSingleHyphen(infos[..|infos| - 1], isValid) && (isValid(last) ==> SingleHyphen(last.instrumentName))
  {
    var init := infos[..|infos| - 1];
    assert forall i :: 0 <= i < |init| ==> init[i] == infos[i];
  }

  /** On an identity map a single-hyphen name is added as a key mapped to itself. */
  lemma AddSymbolToIdentity(m: map<string, string>, name: string)
    requires forall k :: k in m ==> m[k] == k
    requires SingleHyphen(name)
    ensures AddSymbol(m, name) == Ok(m[name := name])
  {
    CombineSplit(name);
  }

  /** The map is built iff every valid name has exactly one hyphen; it then maps every valid
      name, and only those, to itself (a trading pair is never assigned twice). */
  lemma {:induction false} SymbolMapIdentity(infos: seq<Instrument>, isValid: Instrument -> bool)
    ensures SymbolMap(infos, isValid).Ok? <==> AllSingleHyphen(infos, isValid)
    ensures SymbolMap(infos, isValid).Ok? ==> IdentityOn(SymbolMap(infos, isValid).value, ValidNames(infos, isValid))
  {
    if |infos| > 0 {
      var init := infos[..|infos| - 1];
      var last := infos[|infos| - 1];
      SymbolMapIdentity(init, isValid);
      ValidNamesSnoc(infos, isValid);
      AllSingleHyphenSnoc(infos, isValid);
      if SymbolMap(init, isValid).Ok? && isValid(last) && SingleHyphen(last.instrumentName) {
        AddSymbolToIdentity(SymbolMap(init, isValid).value, last.instrumentName);
      }
    }
  }

  /** Once a prefix fails, the whole construction fails with the same error. */
  lemma {:induction false} SymbolMapErrorSticks(infos: seq<Instrument>, isValid: Instrument -> bool, n: nat)
    requires n <= |infos| && SymbolMap(infos[..n], isValid).Err?
    ensures SymbolMap(infos, isValid) == SymbolMap(infos[..n], isValid)
    decreases |infos| - n
  {
    if n < |infos| {
      assert infos[..n + 1][..n] == infos[..n];
      SymbolMapErrorSticks(infos, isValid, n + 1);
    } else {
      assert infos[..n] == infos;
    }
  }

  // ---------------------------------------------------------------------------
  // Cancel-result classification.

  /** One element of `response.data.statuses`: its keys and their (textual) values. */
  type StatusEntry = map<string, string>

  /** What `_place_cancel` raises: the order-not-found `IOError` carrying the status's
      `error`, or a `KeyError` / `IndexError` from a response of another shape. */
  datatype CancelError = OrderNotFound(message: string) | MissingKey | NoStatus

  /** Whether the order tracker was told the order does not exist, and what the call
      returns or raises. */
  datatype CancelOutcome = CancelOutcome(markedNotFound: bool, result: Result<bool, CancelError>)

  /** `statuses[0]`, where `None` is a response without the `response.data.statuses` path. */
  function FirstStatus(statuses: Option<seq<StatusEntry>>): (r: Result<StatusEntry, CancelError>)
    ensures r == Err(MissingKey) <==> statuses.None?
    ensures r == Err(NoStatus) <==> statuses == Some([])
    ensures r.Ok? ==> r.value == statuses.value[0]
  {
    match statuses
    case None => Err(MissingKey)
    case Some(s) => if |s| == 0 then Err(NoStatus) else Ok(s[0])
  }

  /** The classification of a cancel response (`status` is `cancel_result.get("status")`).
      An order is marked not-found exactly when the status is `"err"` or the first status
      has an `error`, and then the call always raises; otherwise it returns whether the
      first status reports `success`. */
  function ClassifyCancel(status: Option<string>, statuses: Option<seq<StatusEntry>>): (o: CancelOutcome)
    ensures o.markedNotFound <==>
      status == Some("err") || (FirstStatus(statuses).Ok? && "error" in FirstStatus(statuses).value)
    ensures o.markedNotFound ==> o.result.Err?
    ensures o.result.Ok? <==> !o.markedNotFound && FirstStatus(statuses).Ok?
    ensures o.result == Ok(true) <==>
      && status != Some("err") && FirstStatus(statuses).Ok?
      && "error" !in FirstStatus(statuses).value && "success" in FirstStatus(statuses).value
    ensures o.result.Err? && o.result.error.OrderNotFound? ==>
      o.markedNotFound && FirstStatus(statuses).Ok? && "error" in FirstStatus(statuses).value
      && o.result.error.message == FirstStatus(statuses).value["error"]
  {
    var first := FirstStatus(statuses);
    if status == Some("err") then
      var raised := match first
        case Err(e) => e
        case Ok(s) => if "error" in s then OrderNotFound(s["error"]) else MissingKey;
      CancelOutcome(true, Err(raised))
    else
      match first
      case Err(e) => CancelOutcome(false, Err(e))
      case Ok(s) =>
        if "error" in s then CancelOutcome(true, Err(OrderNotFound(s["error"])))
        else CancelOutcome(false, Ok("success" in s))
  }

  // ---------------------------------------------------------------------------
  // User-stream routing.

  /** A message of the user stream: a dict with its optional `channel` and `data` list, the
      `CancelledError` class itself, or anything else. */
  datatype UserEvent<M> = DictEvent(channel: Option<string>, data: Option<seq<M>>) | CancelledMarker | OtherEvent

  /** A call the listener makes for one element of a message's data. */
  datatype Dispatch<M> = ProcessOrder(msg: M) | ProcessTrade(msg: M)

  /** One dispatch per data element, in order. */
  function Tag<M>(data: seq<M>, orders: bool): (r: seq<Dispatch<M>>)
    ensures |r| == |data|
    ensures forall k :: 0 <= k < |data| ==> r[k] == (if orders then ProcessOrder(data[k]) else ProcessTrade(data[k]))
  {
    if |data| == 0 then [] else
      Tag(data[..|data| - 1], orders) + [if orders then ProcessOrder(data[|data| - 1]) else ProcessTrade(data[|data| - 1])]
  }

  /** The connector's state as far as the rules above use it. */
  class DeriveExchange {
    const subId: nat
    const userOrdersEndpointName: string
    const userEventEndpointName: string
    const orderNotExistMessage: string
    const unknownOrderMessage: string

    var instrumentTicker: seq<Instrument>
    var tradingPairSymbolMap: Option<map<string, string>>
    var accountBalances: map<string, real>
    var accountAvailableBalances: map<string, real>

    /** Both balance dictionaries track the same assets. */
    ghost predicate Valid()
      reads this
    {
      accountBalances.Keys == accountAvailableBalances.Keys
    }

    constructor(subId: nat, userOrdersEndpointName: string, userEventEndpointName: string,
                orderNotExistMessage: string, unknownOrderMessage: string)
      ensures Valid()
      ensures this.subId == subId
      ensures this.userOrdersEndpointName == userOrdersEndpointName
      ensures this.userEventEndpointName == userEventEndpointName
      ensures this.orderNotExistMessage == orderNotExistMessage
      ensures this.unknownOrderMessage == unknownOrderMessage
      ensures instrumentTicker == [] && tradingPairSymbolMap == None
      ensures accountBalances == map[] && accountAvailableBalances == map[]
    {
      this.subId := subId;
      this.userOrdersEndpointName := userOrdersEndpointName;
      this.userEventEndpointName := userEventEndpointName;
      this.orderNotExistMessage := orderNotExistMessage;
      this.unknownOrderMessage := unknownOrderMessage;
      instrumentTicker := [];
      tradingPairSymbolMap := None;
      accountBalances := map[];
      accountAvailableBalances := map[];
    }

    /** `_is_order_not_found_during_status_update_error`: the error text contains the
        order-not-exist message somewhere. */
    function IsOrderNotFoundDuringStatusUpdateError(exceptionText: string): (r: bool)
      ensures r <==> exists i :: OccursAt(exceptionText, orderNotExistMessage, i)
    {
      ContainsIff(exceptionText, orderNotExistMessage);
      Contains(exceptionText, orderNotExistMessage)
    }

    /** `_is_order_not_found_during_cancelation_error`: the error text contains the
        unknown-order message somewhere. */
    function IsOrderNotFoundDuringCancelationError(exceptionText: string): (r: bool)
      ensures r <==> exists i :: OccursAt(exceptionText, unknownOrderMessage, i)
    {
      ContainsIff(exceptionText, unknownOrderMessage);
      Contains(exceptionText, unknownOrderMessage)
    }

    /** `_update_balances` on the decoded collaterals: both dictionaries end up holding
        exactly the response's assets, each at its last entry's amount. */
    method UpdateBalances(balances: seq<BalanceEntry>)
      requires Valid()
      modifies this
      ensures Valid()
      ensures accountBalances == LastAmounts(balances)
      ensures accountAvailableBalances == LastAmounts(balances)
      ensures instrumentTicker == old(instrumentTicker)
      ensures tradingPairSymbolMap == old(tradingPairSymbolMap)
    {
      var localAssetNames := accountBalances.Keys;
      var remoteAssetNames := WriteBalances(balances);
      PruneBalances(localAssetNames - remoteAssetNames);
      OverlayPruned(old(accountBalances), LastAmounts(balances));
      OverlayPruned(old(accountAvailableBalances), LastAmounts(balances));
    }

    /** The first loop of `_update_balances`: every entry is written into both dictionaries,
        and the names written are collected. */
    method WriteBalances(balances: seq<BalanceEntry>) returns (remoteAssetNames: set<string>)
      modifies this
      ensures accountBalances == old(accountBalances) + LastAmounts(balances)
      ensures accountAvailableBalances == old(accountAvailableBalances) + LastAmounts(balances)
      ensures remoteAssetNames == LastAmounts(balances).Keys
      ensures instrumentTicker == old(instrumentTicker)
      ensures tradingPairSymbolMap == old(tradingPairSymbolMap)
    {
      remoteAssetNames := {};
      var i := 0;
      while i < |balances|
        invariant 0 <= i <= |balances|
        invariant accountBalances == old(accountBalances) + LastAmounts(balances[..i])
        invariant accountAvailableBalances == old(accountAvailableBalances) + LastAmounts(balances[..i])
        invariant remoteAssetNames == LastAmounts(balances[..i]).Keys
        invariant instrumentTicker == old(instrumentTicker)
        invariant tradingPairSymbolMap == old(tradingPairSymbolMap)
      {
        var assetName := balances[i].assetName;
        assert balances[..i + 1][..i] == balances[..i];
        OverlayUpdate(old(accountAvailableBalances), LastAmounts(balances[..i]), assetName, balances[i].amount);
        OverlayUpdate(old(accountBalances), LastAmounts(balances[..i]), assetName, balances[i].amount);
        accountAvailableBalances := accountAvailableBalances[assetName := balances[i].amount];
        accountBalances := accountBalances[assetName := balances[i].amount];
        remoteAssetNames := remoteAssetNames + {assetName};
        i := i + 1;
      }
      assert balances[..i] == balances;
    }

    /** The second loop of `_update_balances`: every stale name is deleted from both
        dictionaries (neither `del` raises, since both hold the name). */
    method PruneBalances(assetNamesToRemove: set<string>)
      requires assetNamesToRemove <= accountBalances.Keys && assetNamesToRemove <= accountAvailableBalances.Keys
      modifies this
      ensures accountBalances == old(accountBalances) - assetNamesToRemove
      ensures accountAvailableBalances == old(accountAvailableBalances) - assetNamesToRemove
      ensures instrumentTicker == old(instrumentTicker)
      ensures tradingPairSymbolMap == old(tradingPairSymbolMap)
    {
      var rest := assetNamesToRemove;
      while rest != {}
        invariant rest <= assetNamesToRemove
        invariant accountBalances == old(accountBalances) - (assetNamesToRemove - rest)
        invariant accountAvailableBalances == old(accountAvailableBalances) - (assetNamesToRemove - rest)
        invariant instrumentTicker == old(instrumentTicker)
        invariant tradingPairSymbolMap == old(tradingPairSymbolMap)
        decreases rest
      {
        var assetName :| assetName in rest;
        assert assetName in accountAvailableBalances && assetName in accountBalances;
        PruneStep(old(accountAvailableBalances), assetNamesToRemove, rest, assetName);
        PruneStep(old(accountBalances), assetNamesToRemove, rest, assetName);
        accountAvailableBalances := accountAvailableBalances - {assetName};
        accountBalances := accountBalances - {assetName};
        rest := rest - {assetName};
      }
      assert assetNamesToRemove - rest == assetNamesToRemove;
    }

    /** `_initialize_trading_pair_symbols_from_exchange_info`: on success the symbol map is
        the bidict built from the valid entries; on an error nothing is stored. */
    method InitializeTradingPairSymbols(exchangeInfos: seq<Instrument>, isValid: Instrument -> bool)
      returns (r: Result<(), SymbolMapError>)
      modifies this
      ensures SymbolMap(exchangeInfos, isValid).Ok? ==>
        r == Ok(()) && tradingPairSymbolMap == Some(SymbolMap(exchangeInfos, isValid).value)
      ensures SymbolMap(exchangeInfos, isValid).Err? ==>
        r == Err(SymbolMap(exchangeInfos, isValid).error) && tradingPairSymbolMap == old(tradingPairSymbolMap)
      ensures instrumentTicker == old(instrumentTicker)
      ensures accountBalances == old(accountBalances)
      ensures accountAvailableBalances == old(accountAvailableBalances)
    {
      var mapping: map<string, string> := map[];
      var i := 0;
      while i < |exchangeInfos|
        invariant 0 <= i <= |exchangeInfos|
        invariant SymbolMap(exchangeInfos[..i], isValid) == Ok(mapping)
      {
        var exchangeInfo := exchangeInfos[i];
        assert exchangeInfos[..i + 1][..i] == exchangeInfos[..i];
        if isValid(exchangeInfo) {
          var exName := exchangeInfo.instrumentName;
          var parts := Split(exName, '-');
          if |parts| != 2 {
            SymbolMapErrorSticks(exchangeInfos, isValid, i + 1);
            return Err(UnsplittableName(exName));
          }
          var tradingPair := CombineToHbTradingPair(parts[0], parts[1]);
          if exists k :: k in mapping && k != exName && mapping[k] == tradingPair {
            SymbolMapErrorSticks(exchangeInfos, isValid, i + 1);
            return Err(ValueDuplication(exName));
          }
          mapping := mapping[exName := tradingPair];
        }
        i := i + 1;
      }
      assert exchangeInfos[..i] == exchangeInfos;
      tradingPairSymbolMap := Some(mapping);
      r := Ok(());
    }

    /** The loop-and-break of `_place_order`: the first instrument named `symbol`, if any. */
    method FindInstrument(symbol: string) returns (r: Option<Instrument>)
      ensures r.None? <==> forall i :: 0 <= i < |instrumentTicker| ==> instrumentTicker[i].instrumentName != symbol
      ensures r.Some? ==> exists i :: IsFirstMatch(instrumentTicker, symbol, i) && r.value == instrumentTicker[i]
    {
      r := None;
      var i := 0;
      while i < |instrumentTicker|
        invariant 0 <= i <= |instrumentTicker|
        invariant forall j :: 0 <= j < i ==> instrumentTicker[j].instrumentName != symbol
      {
        if instrumentTicker[i].instrumentName == symbol {
          r := Some(instrumentTicker[i]);
          assert IsFirstMatch(instrumentTicker, symbol, i);
          break;
        }
        i := i + 1;
      }
    }

    /** The request body `_place_order` builds for `symbol` (the exchange symbol of the
        trading pair). `is_bid` is sent as written, true for every order, so it disagrees
        with the intended `IsBid` exactly on orders that do not buy. */
    method PlaceOrderParams(orderId: string, symbol: string, amountText: string, priceText: string,
                            tradeType: TradeType, orderType: OrderType)
      returns (r: Result<OrderPayload, PlaceOrderError>)
      ensures r.Err? <==> forall i :: 0 <= i < |instrumentTicker| ==> instrumentTicker[i].instrumentName != symbol
      ensures r.Ok? ==> exists i :: (IsFirstMatch(instrumentTicker, symbol, i)
        && r.value.assetAddress == instrumentTicker[i].baseAssetAddress
        && r.value.subId == instrumentTicker[i].baseAssetSubId)
      ensures r.Ok? ==> r.value.timeInForce == TimeInForce(orderType)
      ensures r.Ok? ==> (r.value.direction == "buy" <==> tradeType == Buy)
      ensures r.Ok? ==> r.value.isBid
      ensures r.Ok? ==> (r.value.isBid == IsBid(tradeType) <==> tradeType == Buy)
      ensures r.Ok? ==> r.value.orderType == OrderTypeName(orderType)
      ensures r.Ok? ==> r.value.instrumentName == symbol && r.value.orderLabel == orderId
      ensures r.Ok? ==> r.value.limitPrice == priceText && r.value.amount == amountText
      ensures r.Ok? ==> r.value.kind == "order" && r.value.maxFee == "1000" && !r.value.mmp
      ensures r.Ok? ==> r.value.recipientId == subId
    {
      var instrument := FindInstrument(symbol);
      var paramOrderType := GoodTillCancel;
      if orderType == LimitMaker {
        paramOrderType := FillOrKill;
      }
      if orderType == Market {
        paramOrderType := ImmediateOrCancel;
      }
      if instrument.None? {
        return Err(NoInstrument(symbol));
      }
      r := Ok(OrderPayload(
        assetAddress := instrument.value.baseAssetAddress,
        subId := instrument.value.baseAssetSubId,
        limitPrice := priceText,
        kind := "order",
        maxFee := NatToString(1000),
        amount := amountText,
        instrumentName := symbol,
        orderLabel := orderId,
        isBid := IsBidAsWritten(tradeType),
        direction := Direction(tradeType),
        orderType := OrderTypeName(orderType),
        mmp := false,
        timeInForce := paramOrderType,
        recipientId := subId));
    }

    /** `f"{sub_id}.{USER_ORDERS_ENDPOINT_NAME}"`. */
    function OrdersChannel(): (r: string)
      ensures StartsWith(r, NatToString(subId) + ".")
      ensures r[|NatToString(subId)| + 1..] == userOrdersEndpointName
    {
      NatToString(subId) + "." + userOrdersEndpointName
    }

    /** `f"{sub_id}.{USEREVENT_ENDPOINT_NAME}"`. */
    function EventsChannel(): (r: string)
      ensures StartsWith(r, NatToString(subId) + ".")
      ensures r[|NatToString(subId)| + 1..] == userEventEndpointName
    {
      NatToString(subId) + "." + userEventEndpointName
    }

    /** What one event (not the cancellation) causes: the order channel's data go to order
        processing, the event channel's to trade processing, anything else to nothing. */
    function EventDispatches<M>(e: UserEvent<M>): (r: seq<Dispatch<M>>)
      // every call carries an element of the message's data
      ensures forall d :: d in r ==> e.DictEvent? && e.data.Some? && d.msg in e.data.value
      // orders are processed exactly from the order channel, trades from the event channel
      ensures forall d :: d in r ==> (d.ProcessOrder? <==> e.channel == Some(OrdersChannel()))
      ensures forall d :: d in r ==> (d.ProcessTrade? ==> e.channel == Some(EventsChannel()))
    {
      match e
      case DictEvent(Some(ch), Some(data)) =>
        if ch == OrdersChannel() then Tag(data, true)
        else if ch == EventsChannel() then Tag(data, false)
        else []
      case _ => []
    }

    /** The dispatches of a stream and whether it ended on the cancellation, which stops
        the listener. */
    function Route<M>(events: seq<UserEvent<M>>): (r: (seq<Dispatch<M>>, bool))
      // the listener stops only on a cancellation
      ensures r.1 ==> exists i :: 0 <= i < |events| && events[i].CancelledMarker?
    {
      if |events| == 0 then ([], false)
      else
        assert forall i :: 0 <= i < |events| - 1 ==> events[..|events| - 1][i] == events[i];
        var prior := Route(events[..|events| - 1]);
        var last := events[|events| - 1];
        if prior.1 then prior
        else if last.CancelledMarker? then (prior.0, true)
        else (prior.0 + EventDispatches(last), false)
    }

    /** `_user_stream_event_listener` over a finite stream. */
    method RouteUserStream<M>(events: seq<UserEvent<M>>) returns (dispatched: seq<Dispatch<M>>, cancelled: bool)
      ensures (dispatched, cancelled) == Route(events)
    {
      dispatched := [];
      cancelled := false;
      var i := 0;
      while i < |events|
        invariant 0 <= i <= |events|
        invariant Route(events[..i]) == (dispatched, false)
      {
        var eventMessage := events[i];
        assert events[..i + 1][..i] == events[..i];
        if eventMessage.CancelledMarker? {
          cancelled := true;
          SkipAfterCancel(events, i + 1);
          return;
        }
        var calls := HandleEvent(eventMessage);
        dispatched := dispatched + calls;
        i := i + 1;
      }
      assert events[..i] == events;
    }

    /** The body of the listener loop for one message other than the cancellation. */
    method HandleEvent<M>(eventMessage: UserEvent<M>) returns (calls: seq<Dispatch<M>>)
      requires !eventMessage.CancelledMarker?
      ensures calls == EventDispatches(eventMessage)
    {
      var userChannels := [OrdersChannel(), EventsChannel()];
      calls := [];
      if eventMessage.DictEvent? && eventMessage.channel.Some? && eventMessage.channel.value in userChannels
        && eventMessage.data.Some?
      {
        var channel := eventMessage.channel.value;
        var results := eventMessage.data.value;
        var orders := channel == userChannels[0];
        var j := 0;
        while j < |results|
          invariant 0 <= j <= |results|
          invariant calls == Tag(results[..j], orders)
        {
          assert results[..j + 1][..j] == results[..j];
          if orders {
            calls := calls + [ProcessOrder(results[j])];
          } else {
            calls := calls + [ProcessTrade(results[j])];
          }
          j := j + 1;
        }
        assert results[..j] == results;
      }
    }

    /** After the cancellation nothing more is dispatched. */
    lemma {:induction false} SkipAfterCancel<M>(events: seq<UserEvent<M>>, n: nat)
      requires n <= |events| && Route(events[..n]).1
      ensures Route(events) == Route(events[..n])
      decreases |events| - n
    {
      if n < |events| {
        assert events[..n + 1][..n] == events[..n];
        SkipAfterCancel(events, n + 1);
      } else {
        assert events[..n] == events;
      }
    }

    /** A cancellation stops routing: what follows it is never dispatched. */
    lemma CancelStops<M>(before: seq<UserEvent<M>>, after: seq<UserEvent<M>>)
      requires !Route(before).1
      ensures Route(before + [CancelledMarker] + after) == (Route(before).0, true)
    {
      var events := before + [CancelledMarker] + after;
      assert events[..|before| + 1] == before + [CancelledMarker];
      assert (before + [CancelledMarker])[..|before|] == before;
      SkipAfterCancel(events, |before| + 1);
    }

    /** A message on a foreign channel, without a channel, or not a dict is skipped: removing
        it changes nothing. */
    lemma {:induction false} ForeignEventSkipped<M>(before: seq<UserEvent<M>>, e: UserEvent<M>, after: seq<UserEvent<M>>)
      requires !e.CancelledMarker?
      requires e.DictEvent? && e.channel.Some? ==>
        e.channel.value != OrdersChannel() && e.channel.value != EventsChannel()
      ensures Route(before + [e] + after) == Route(before + after)
      decreases |after|
    {
      if |after| == 0 {
        assert before + [e] + after == before + [e];
        assert (before + [e])[..|before|] == before;
        assert before + after == before;
        assert EventDispatches(e) == [];
        assert Route(before).0 + [] == Route(before).0;
      } else {
        var init := after[..|after| - 1];
        ForeignEventSkipped(before, e, init);
        assert (before + [e] + after)[..|before + [e] + after| - 1] == before + [e] + init;
        assert (before + after)[..|before + after| - 1] == before + init;
      }
    }

    /** Every order processed comes from a message on the order channel, and every trade
        processed from one on the event channel. */
    lemma {:induction false} DispatchSources<M>(events: seq<UserEvent<M>>, d: Dispatch<M>)
      requires d in Route(events).0
      ensures exists i :: (0 <= i < |events| && events[i].DictEvent?
        && events[i].data.Some? && d.msg in events[i].data.value
        && events[i].channel == Some(if d.ProcessOrder? then OrdersChannel() else EventsChannel()))
    {
      var init := events[..|events| - 1];
      var last := events[|events| - 1];
      if d in Route(init).0 {
        DispatchSources(init, d);
        var i :| 0 <= i < |init| && init[i].DictEvent?
          && init[i].data.Some? && d.msg in init[i].data.value
          && init[i].channel == Some(if d.ProcessOrder? then OrdersChannel() else EventsChannel());
        assert events[i] == init[i];
      } else {
        var k :| 0 <= k < |EventDispatches(last)| && EventDispatches(last)[k] == d;
        assert d.msg == last.data.value[k];
        assert events[|events| - 1] == last;
      }
    }

    /** Without a cancellation every element of every order-channel message is processed as
        an order. */
    lemma {:induction false} OrdersAllProcessed<M>(events: seq<UserEvent<M>>, i: int, k: int)
      requires forall j :: 0 <= j < |events| ==> !events[j].CancelledMarker?
      requires 0 <= i < |events| && events[i].DictEvent?
      requires events[i].channel == Some(OrdersChannel()) && events[i].data.Some?
      requires 0 <= k < |events[i].data.value|
      ensures !Route(events).1
      ensures ProcessOrder(events[i].data.value[k]) in Route(events).0
    {
      var init := events[..|events| - 1];
      if i < |events| - 1 {
        OrdersAllProcessed(init, i, k);
      } else if |events| > 1 {
        NoCancelNotStopped(init);
      }
      if i == |events| - 1 {
        assert EventDispatches(events[i])[k] == ProcessOrder(events[i].data.value[k]);
      }
    }

    /** The two user channels differ exactly when their endpoint names do. */
    lemma ChannelsDiffer()
      ensures OrdersChannel() == EventsChannel() <==> userOrdersEndpointName == userEventEndpointName
    {
      var p := NatToString(subId) + ".";
      assert OrdersChannel()[|p|..] == userOrdersEndpointName;
      assert EventsChannel()[|p|..] == userEventEndpointName;
    }

    /** Without a cancellation every element of every event-channel message is processed as
        a trade (the endpoints being different). */
    lemma {:induction false} TradesAllProcessed<M>(events: seq<UserEvent<M>>, i: int, k: int)
      requires userOrdersEndpointName != userEventEndpointName
      requires forall j :: 0 <= j < |events| ==> !events[j].CancelledMarker?
      requires 0 <= i < |events| && events[i].DictEvent?
      requires events[i].channel == Some(EventsChannel()) && events[i].data.Some?
      requires 0 <= k < |events[i].data.value|
      ensures !Route(events).1
      ensures ProcessTrade(events[i].data.value[k]) in Route(events).0
    {
      var init := events[..|events| - 1];
      if i < |events| - 1 {
        TradesAllProcessed(init, i, k);
      } else if |events| > 1 {
        NoCancelNotStopped(init);
      }
      if i == |events| - 1 {
        ChannelsDiffer();
        assert EventDispatches(events[i])[k] == ProcessTrade(events[i].data.value[k]);
      }
    }

    /** A stream without the cancellation is routed to its end. */
    lemma {:induction false} NoCancelNotStopped<M>(events: seq<UserEvent<M>>)
      requires forall j :: 0 <= j < |events| ==> !events[j].CancelledMarker?
      ensures !Route(events).1
    {
      if |events| > 0 {
        NoCancelNotStopped(events[..|events| - 1]);
      }
    }
  }
}
