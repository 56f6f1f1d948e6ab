/**
 * The pure rules of src/App.tsx that sit around the split: the input
 * validator `error`, the `handleCalculate` guard, the clamp the people
 * counter applies to the light and heavy counts, and the displayed normal
 * count.  React state and rendering are left out; the component's state is
 * passed in as parameters.
 */
module App {
  import Format
  import SplitCalc
  import Storage
  import opened MinMax

  datatype Option<T> = None | Some(value: T)

  /** The four ways the form's input can be rejected, in order of priority. */
  datatype InputError =
    | AmountRequired        // no amount, or an amount that reads as 0
    | TooFewPeople          // fewer than one person
    | NegativeCount         // a negative light or heavy count
    | WeightedExceedPeople  // light + heavy exceeds people

  /** The message shown for each error. */
  function Message(e: InputError): (m: string)
    ensures m != ""
  {
    match e
    case AmountRequired => "合計金額を入力してください"
    case TooFewPeople => "人数は1人以上にしてください"
    case NegativeCount => "人数は0以上にしてください"
    case WeightedExceedPeople => "少なめ+多めが人数を超えています"
  }

  /** The first check of the `error` memo that fails, if any. */
  function Validate(amountRaw: string, people: int, low: int, high: int): Option<InputError>
  {
    var total := Format.ParseDigits(amountRaw);
    if amountRaw == "" || total <= 0 then Some(AmountRequired)
    else if people < 1 then Some(TooFewPeople)
    else if low < 0 || high < 0 then Some(NegativeCount)
    else if low + high > people then Some(WeightedExceedPeople)
    else None
  }

  /** The `error` string: empty when the input is accepted. */
  function ErrorText(amountRaw: string, people: int, low: int, high: int): (msg: string)
    ensures msg == "" <==> Validate(amountRaw, people, low, high) == None
  {
    match Validate(amountRaw, people, low, high)
    case None => ""
    case Some(e) => Message(e)
  }

  /** `error` is empty exactly when every check passes. */
  lemma ErrorEmptyIff(amountRaw: string, people: int, low: int, high: int)
    ensures ErrorText(amountRaw, people, low, high) == "" <==>
      && amountRaw != ""
      && Format.ParseDigits(amountRaw) > 0
      && people >= 1
      && low >= 0 && high >= 0
      && low + high <= people
  {
  }

  /**
   * The checks run in a fixed order and the first failing one wins: each
   * message is shown exactly when its own check fails and every earlier
   * one passes.
   */
  lemma ErrorPriority(amountRaw: string, people: int, low: int, high: int)
    ensures var amountOk := amountRaw != "" && Format.ParseDigits(amountRaw) > 0;
      && (Validate(amountRaw, people, low, high) == Some(AmountRequired) <==> !amountOk)
      && (Validate(amountRaw, people, low, high) == Some(TooFewPeople) <==> amountOk && people < 1)
      && (Validate(amountRaw, people, low, high) == Some(NegativeCount) <==>
            amountOk && people >= 1 && (low < 0 || high < 0))
      && (Validate(amountRaw, people, low, high) == Some(WeightedExceedPeople) <==>
            amountOk && people >= 1 && low >= 0 && high >= 0 && low + high > people)
  {
  }

  /** What a calculation produces: the split and the updated history. */
  datatype Calculation = Calculation(result: SplitCalc.SplitResult, history: seq<Storage.HistoryItem>)

  /**
   * handleCalculate: nothing happens while `error` is non-empty; otherwise
   * the split is computed and the input is added to the history.  Every
   * split it computes is exact.
   */
  function HandleCalculate(amountRaw: string, people: int, low: int, high: int,
                           history: seq<Storage.HistoryItem>, id: string, createdAt: int)
    : (r: Option<Calculation>)
    ensures r.Some? <==> ErrorText(amountRaw, people, low, high) == ""
    ensures r.Some? ==> SplitCalc.ResultTotal(r.value.result) == Format.ParseDigits(amountRaw)
    ensures r.Some? ==>
      var s := r.value.result;
      && s.low.count == low && s.high.count == high && s.normal.count == people - low - high
      && SplitCalc.CountSum(s.low.breakdown) + SplitCalc.CountSum(s.normal.breakdown)
         + SplitCalc.CountSum(s.high.breakdown) == people
    ensures r.Some? ==> |r.value.history| == Min(|history| + 1, Storage.HistoryLimit)
    ensures r.Some? ==>
      r.value.result == SplitCalc.CalcSplit(Format.ParseDigits(amountRaw), people, low, high)
    ensures r.Some? ==>
      r.value.history
      == Storage.AddHistory(history, Storage.LastInput(amountRaw, people, low, high), id, createdAt)
  {
    if ErrorText(amountRaw, people, low, high) != "" then None
    else
      var total := Format.ParseDigits(amountRaw);
      SplitCalc.CalcSplitExact(total, people, low, high);
      Some(Calculation(
        SplitCalc.CalcSplit(total, people, low, high),
        Storage.AddHistory(history, Storage.LastInput(amountRaw, people, low, high), id, createdAt)))
  }

  /** The light and heavy counts after the people counter changes. */
  datatype Counts = Counts(low: int, high: int)

  /**
   * The people counter's onChange (lines 119-120): shrink the heavy count
   * first, then the light count, so that they fit into `value`.
   */
  function ClampCounts(value: int, low: int, high: int): (r: Counts)
    ensures value >= 0 && low >= 0 && high >= 0 ==> r.low + r.high <= value
    ensures low >= 0 && high >= 0 ==> 0 <= r.high <= high && 0 <= r.low <= low
    ensures low + high <= value ==> r == Counts(low, high)
  {
    var nextHigh := Min(high, Max(0, value - low));
    var nextLow := Min(low, Max(0, value - nextHigh));
    Counts(nextLow, nextHigh)
  }

  /**
   * After the counter moves to any value >= 1 (its minimum), the counts
   * pass the form's checks again whenever the amount does.
   */
  lemma ClampKeepsAccepted(amountRaw: string, value: int, low: int, high: int)
    requires value >= 1 && low >= 0 && high >= 0
    requires amountRaw != "" && Format.ParseDigits(amountRaw) > 0
    ensures var c := ClampCounts(value, low, high);
      ErrorText(amountRaw, value, c.low, c.high) == ""
  {
  }

  /** The normal count shown under the counters. */
  function DisplayedNormal(people: int, low: int, high: int): (n: int)
    ensures n >= 0
    ensures n >= people - low - high
    ensures n == 0 || n == people - low - high
  {
    var normal := people - low - high;
    if normal >= 0 then normal else 0
  }

  /** For accepted input the displayed normal count is the split's normal count. */
  lemma DisplayedNormalMatchesSplit(amountRaw: string, people: int, low: int, high: int)
    requires ErrorText(amountRaw, people, low, high) == ""
    ensures SplitCalc.WeightSum(people, low, high) > 0.0
    ensures DisplayedNormal(people, low, high)
            == SplitCalc.CalcSplit(Format.ParseDigits(amountRaw), people, low, high).normal.count
  {
    SplitCalc.TargetNonEmpty(people, low, high);
  }
}
