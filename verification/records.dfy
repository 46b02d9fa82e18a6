/**
 * The rows the store holds. A stored dividend record is built with JavaScript
 * object spread (`{...input, id, lastUpdated}` on create, `{...existing,
 * ...partial, lastUpdated}` on update); `Object` is that key-by-key view, in
 * which spread is map union with the right-hand side winning.
 */
module Records {
  import opened Wrappers

  /** Milliseconds since the epoch, as `new Date()` yields. */
  type Timestamp = int

  /** A user row; `isAdmin` is what the admin gate looks at. */
  datatype User = User(id: int, username: string, password: string, isAdmin: bool)

  /** The fields a registration supplies. */
  datatype NewUser = NewUser(username: string, password: string)

  /**
   * The fields of a dividend record that a client supplies. Amounts are decimals
   * that no code here does arithmetic on; `dividendYield` is the source's `yield`.
   */
  datatype NewDividend = NewDividend(
    companyName: string,
    ticker: string,
    sector: string,
    established: int,
    quotedDate: int,
    fyEnding: string,
    dividendAmount: real,
    frequency: string,
    dividendYield: real,
    yearWiseData: seq<string>)

  /** A stored dividend record: the supplied fields plus the assigned id and the time of the last write. */
  datatype Dividend = Dividend(
    id: int,
    companyName: string,
    ticker: string,
    sector: string,
    established: int,
    quotedDate: int,
    fyEnding: string,
    dividendAmount: real,
    frequency: string,
    dividendYield: real,
    yearWiseData: seq<string>,
    lastUpdated: Timestamp)

  /** A partial update: `None` is a field the body leaves out. */
  datatype DividendPatch = DividendPatch(
    companyName: Option<string>,
    ticker: Option<string>,
    sector: Option<string>,
    established: Option<int>,
    quotedDate: Option<int>,
    fyEnding: Option<string>,
    dividendAmount: Option<real>,
    frequency: Option<string>,
    dividendYield: Option<real>,
    yearWiseData: Option<seq<string>>)

  /** The patch that supplies no field. */
  const NoChanges := DividendPatch(None, None, None, None, None, None, None, None, None, None)

  /** The property names of a dividend record. */
  datatype Key =
    | Id | CompanyName | Ticker | Sector | Established | QuotedDate | FyEnding
    | DividendAmount | Frequency | Yield | YearWiseData | LastUpdated

  /** A property value. */
  datatype Value = Text(text: string) | Int(number: int) | Num(decimal: real) | TextList(items: seq<string>)

  /** A JavaScript object with dividend-record properties. */
  type Object = map<Key, Value>

  const AllKeys: set<Key> :=
    {Id, CompanyName, Ticker, Sector, Established, QuotedDate, FyEnding,
     DividendAmount, Frequency, Yield, YearWiseData, LastUpdated}

  /** `AllKeys` lists every property. */
  lemma KeyListed(k: Key)
    ensures k in AllKeys
  {
    match k
    case Id =>
    case CompanyName =>
    case Ticker =>
    case Sector =>
    case Established =>
    case QuotedDate =>
    case FyEnding =>
    case DividendAmount =>
    case Frequency =>
    case Yield =>
    case YearWiseData =>
    case LastUpdated =>
  }

  /** The value of property `k` of a stored record. */
  function Field(d: Dividend, k: Key): Value
  {
    match k
    case Id => Int(d.id)
    case CompanyName => Text(d.companyName)
    case Ticker => Text(d.ticker)
    case Sector => Text(d.sector)
    case Established => Int(d.established)
    case QuotedDate => Int(d.quotedDate)
    case FyEnding => Text(d.fyEnding)
    case DividendAmount => Num(d.dividendAmount)
    case Frequency => Text(d.frequency)
    case Yield => Num(d.dividendYield)
    case YearWiseData => TextList(d.yearWiseData)
    case LastUpdated => Int(d.lastUpdated)
  }

  /** The value of property `k` of a create body; it has no `id` and no `lastUpdated`. */
  function InputField(n: NewDividend, k: Key): Option<Value>
  {
    match k
    case Id => None
    case CompanyName => Some(Text(n.companyName))
    case Ticker => Some(Text(n.ticker))
    case Sector => Some(Text(n.sector))
    case Established => Some(Int(n.established))
    case QuotedDate => Some(Int(n.quotedDate))
    case FyEnding => Some(Text(n.fyEnding))
    case DividendAmount => Some(Num(n.dividendAmount))
    case Frequency => Some(Text(n.frequency))
    case Yield => Some(Num(n.dividendYield))
    case YearWiseData => Some(TextList(n.yearWiseData))
    case LastUpdated => None
  }

  /** The value of property `k` of a partial body, if it supplies one. */
  function PatchField(p: DividendPatch, k: Key): Option<Value>
  {
    match k
    case Id => None
    case CompanyName => if p.companyName.Some? then Some(Text(p.companyName.value)) else None
    case Ticker => if p.ticker.Some? then Some(Text(p.ticker.value)) else None
    case Sector => if p.sector.Some? then Some(Text(p.sector.value)) else None
    case Established => if p.established.Some? then Some(Int(p.established.value)) else None
    case QuotedDate => if p.quotedDate.Some? then Some(Int(p.quotedDate.value)) else None
    case FyEnding => if p.fyEnding.Some? then Some(Text(p.fyEnding.value)) else None
    case DividendAmount => if p.dividendAmount.Some? then Some(Num(p.dividendAmount.value)) else None
    case Frequency => if p.frequency.Some? then Some(Text(p.frequency.value)) else None
    case Yield => if p.dividendYield.Some? then Some(Num(p.dividendYield.value)) else None
    case YearWiseData => if p.yearWiseData.Some? then Some(TextList(p.yearWiseData.value)) else None
    case LastUpdated => None
  }

  function RecordObject(d: Dividend): Object
  {
    map k | k in AllKeys :: Field(d, k)
  }

  function InputObject(n: NewDividend): Object
  {
    map k | k in AllKeys && InputField(n, k).Some? :: InputField(n, k).value
  }

  /** The object a partial body parses to: only the properties it supplies. */
  function PatchObject(p: DividendPatch): Object
  {
    map k | k in AllKeys && PatchField(p, k).Some? :: PatchField(p, k).value
  }

  /** Two records with the same object view are the same record: the view loses nothing. */
  lemma RecordObjectInjective(a: Dividend, b: Dividend)
    requires RecordObject(a) == RecordObject(b)
    ensures a == b
  {
    var oa, ob := RecordObject(a), RecordObject(b);
    assert oa[Id] == ob[Id] && oa[LastUpdated] == ob[LastUpdated];
    assert oa[CompanyName] == ob[CompanyName] && oa[Ticker] == ob[Ticker] && oa[Sector] == ob[Sector];
    assert oa[Established] == ob[Established] && oa[QuotedDate] == ob[QuotedDate] && oa[FyEnding] == ob[FyEnding];
    assert oa[DividendAmount] == ob[DividendAmount] && oa[Frequency] == ob[Frequency];
    assert oa[Yield] == ob[Yield] && oa[YearWiseData] == ob[YearWiseData];
  }

  /** The record `createDividend` stores: `{...input, id, lastUpdated: now}`. */
  function Stamp(input: NewDividend, id: int, now: Timestamp): (d: Dividend)
    ensures d.id == id && d.lastUpdated == now
    ensures forall k :: InputField(input, k).Some? ==> Field(d, k) == InputField(input, k).value
  {
    Dividend(id, input.companyName, input.ticker, input.sector, input.established, input.quotedDate,
             input.fyEnding, input.dividendAmount, input.frequency, input.dividendYield,
             input.yearWiseData, now)
  }

  /**
   * The record `updateDividend` stores: `{...existing, ...patch, lastUpdated: now}`.
   * Every supplied field takes the new value, every other field keeps the old one,
   * and the id is the existing record's.
   */
  function Merge(existing: Dividend, patch: DividendPatch, now: Timestamp): (d: Dividend)
    ensures d.id == existing.id && d.lastUpdated == now
    ensures patch == NoChanges ==> d == existing.(lastUpdated := now)
  {
    Dividend(
      existing.id,
      Pick(patch.companyName, existing.companyName),
      Pick(patch.ticker, existing.ticker),
      Pick(patch.sector, existing.sector),
      Pick(patch.established, existing.established),
      Pick(patch.quotedDate, existing.quotedDate),
      Pick(patch.fyEnding, existing.fyEnding),
      Pick(patch.dividendAmount, existing.dividendAmount),
      Pick(patch.frequency, existing.frequency),
      Pick(patch.dividendYield, existing.dividendYield),
      Pick(patch.yearWiseData, existing.yearWiseData),
      now)
  }

  /** A supplied value wins over the old one (`...patch` after `...existing`). */
  function Pick<T>(supplied: Option<T>, current: T): T
  {
    if supplied.Some? then supplied.value else current
  }

  /** The record `createDividend` stores is the spread `{...input, id, lastUpdated: now}`. */
  lemma StampIsSpread(input: NewDividend, id: int, now: Timestamp)
    ensures RecordObject(Stamp(input, id, now)) == InputObject(input) + map[Id := Int(id), LastUpdated := Int(now)]
  {
    var lhs, rhs := RecordObject(Stamp(input, id, now)), InputObject(input) + map[Id := Int(id), LastUpdated := Int(now)];
    forall k ensures (k in lhs <==> k in rhs) && (k in lhs ==> lhs[k] == rhs[k]) {
      KeyListed(k);
      StampField(input, id, now, k);
    }
  }

  /** Property by property: `id` and `lastUpdated` are the new ones, every other property is the input's. */
  lemma StampField(input: NewDividend, id: int, now: Timestamp, k: Key)
    ensures InputField(input, k).Some? <==> k != Id && k != LastUpdated
    ensures Field(Stamp(input, id, now), k)
         == if k == Id then Int(id) else if k == LastUpdated then Int(now) else InputField(input, k).value
  {
    match k
    case Id =>
    case CompanyName =>
    case Ticker =>
    case Sector =>
    case Established =>
    case QuotedDate =>
    case FyEnding =>
    case DividendAmount =>
    case Frequency =>
    case Yield =>
    case YearWiseData =>
    case LastUpdated =>
  }

  /** The record `updateDividend` stores is the spread `{...existing, ...patch, lastUpdated: now}`. */
  lemma MergeIsSpread(existing: Dividend, patch: DividendPatch, now: Timestamp)
    ensures RecordObject(Merge(existing, patch, now))
         == RecordObject(existing) + PatchObject(patch) + map[LastUpdated := Int(now)]
  {
    var lhs := RecordObject(Merge(existing, patch, now));
    var rhs := RecordObject(existing) + PatchObject(patch) + map[LastUpdated := Int(now)];
    forall k ensures (k in lhs <==> k in rhs) && (k in lhs ==> lhs[k] == rhs[k]) {
      KeyListed(k);
      MergeField(existing, patch, now, k);
    }
  }

  /** Property by property: `lastUpdated` is `now`, a supplied property is the patch's, any other the old one. */
  lemma MergeField(existing: Dividend, patch: DividendPatch, now: Timestamp, k: Key)
    ensures Field(Merge(existing, patch, now), k)
         == if k == LastUpdated then Int(now)
            else if PatchField(patch, k).Some? then PatchField(patch, k).value
            else Field(existing, k)
  {
    match k
    case Id =>
    case CompanyName =>
    case Ticker =>
    case Sector =>
    case Established =>
    case QuotedDate =>
    case FyEnding =>
    case DividendAmount =>
    case Frequency =>
    case Yield =>
    case YearWiseData =>
    case LastUpdated =>
  }
}
