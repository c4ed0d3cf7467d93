/** Values shared by the schemas and the routers: optional values, fields of a parsed JSON
    request body, the outcome of a database lookup, the errors a handler passes to Express's
    `next`, the replies it sends, the ascending order of numeric ids, and the decimal text of
    an id as a JavaScript template literal renders it. */
module Common {

  datatype Option<+T> = None | Some(value: T)

  /** One field of a parsed JSON body: absent (`undefined`), `null`, or a value. */
  datatype Json<+T> = Undefined | Null | Value(value: T) {
    /** What a Mongoose document holds once the field is assigned to it: `null` stays `null`. */
    function ToOption(): Option<T> {
      if Value? then Some(value) else None
    }
  }

  /** The two arguments of a `findOne(...).exec(function (err, doc) {...})` callback. */
  datatype Lookup<+T> = LookupError | NotFound | Found(doc: T)

  /** `findOne` on a collection keyed by its numeric id; `fails` stands for the database
      reporting an error. */
  function FindOne<T>(coll: map<int, T>, fails: bool, key: int): Lookup<T>
  {
    if fails then LookupError else if key in coll then Found(coll[key]) else NotFound
  }

  /** What a handler passes to `next(err)`. */
  datatype Error =
    | HttpError(status: int, message: string)  // an Error object carrying a `status`
    | ValidationError(paths: set<string>)      // Mongoose's ValidationError, one entry per failing path
    | DatabaseError                            // any other error the database reports

  /** How a handler ends. */
  datatype Reply<+T> =
    | Send(doc: T)                          // res.send(doc)
    | SendText(status: int, text: string)   // res.status(status).send(text)
    | SendStatus(status: int)               // res.sendStatus(status)
    | NextError(err: Error)                 // next(err)

  /** `m` is the smallest id in `s`. */
  predicate IsLeast(m: int, s: set<int>) {
    m in s && forall k :: k in s ==> m <= k
  }

  /** The smallest element of a non-empty set of ids. */
  function MinOf(s: set<int>): (m: int)
    requires s != {}
    ensures IsLeast(m, s)
  {
    MinExists(s);
    var m :| IsLeast(m, s);
    m
  }

  lemma {:induction false} MinExists(s: set<int>)
    requires s != {}
    ensures exists m :: IsLeast(m, s)
    decreases |s|
  {
    if forall y :: y !in s {
      assert false;
    }
    var x :| x in s;
    var t := s - {x};
    if forall y :: y in s ==> y == x {
      assert IsLeast(x, s);
    } else {
      var y :| y in s && y != x;
      assert y in t;
      MinExists(t);
      var m :| IsLeast(m, t);
      var w := if x < m then x else m;
      forall k | k in s ensures w <= k {
        if k != x { assert k in t; }
      }
      assert IsLeast(w, s);
    }
  }

  /** The ids of a collection in ascending order, as `sort('<id>')` returns them: every id
      exactly once, each smaller than the next. */
  function SortedKeys(s: set<int>): (r: seq<int>)
    ensures |r| == |s|
    ensures forall i :: 0 <= i < |r| ==> r[i] in s
    ensures forall k :: k in s ==> k in r
    ensures forall i, j :: 0 <= i < j < |r| ==> r[i] < r[j]
    decreases |s|
  {
    if s == {} then []
    else
      var m := MinOf(s);
      var rest := SortedKeys(s - {m});
      SortedCons(m, s, rest);
      [m] + rest
  }

  /** `(id) ++ rest` lists `s` in ascending order when `id` is the least of `s` and `rest` so
      lists the others. */
  lemma SortedCons(m: int, s: set<int>, rest: seq<int>)
    requires IsLeast(m, s)
    requires |rest| == |s - {m}|
    requires forall i :: 0 <= i < |rest| ==> rest[i] in s - {m}
    requires forall k :: k in s - {m} ==> k in rest
    requires forall i, j :: 0 <= i < j < |rest| ==> rest[i] < rest[j]
    ensures var r := [m] + rest;
      && |r| == |s|
      && (forall i :: 0 <= i < |r| ==> r[i] in s)
      && (forall k :: k in s ==> k in r)
      && (forall i, j :: 0 <= i < j < |r| ==> r[i] < r[j])
  {
    var r := [m] + rest;
    assert forall i :: 0 < i < |r| ==> r[i] == rest[i - 1];
    assert forall j :: 0 <= j < |rest| ==> m < rest[j];
    forall k | k in s ensures k in r {
      if k != m { assert k in s - {m}; }
    }
  }

  /** The decimal digit for `d`. */
  function DigitChar(d: nat): (c: char)
    requires d < 10
    ensures '0' <= c <= '9' && c as int - '0' as int == d
  {
    ('0' as int + d) as char
  }

  predicate IsDecimalDigits(s: string) {
    forall i :: 0 <= i < |s| ==> '0' <= s[i] <= '9'
  }

  /** How JavaScript writes a non-negative integer in a template literal. */
  function NatToDecimal(n: nat): (s: string)
    ensures |s| >= 1 && IsDecimalDigits(s)
    ensures (s[0] == '0') == (n == 0)
  {
    if n < 10 then [DigitChar(n)] else NatToDecimal(n / 10) + [DigitChar(n % 10)]
  }

  /** The value of a string of decimal digits, read most significant digit first. */
  function DecimalValue(s: string): nat
    requires IsDecimalDigits(s)
  {
    if s == [] then 0 else DecimalValue(s[..|s| - 1]) * 10 + (s[|s| - 1] as int - '0' as int)
  }

  /** Reading back the decimal text of `n` gives `n`. */
  lemma {:induction false} DecimalRoundTrip(n: nat)
    ensures DecimalValue(NatToDecimal(n)) == n
  {
    var s := NatToDecimal(n);
    if n >= 10 {
      var p := NatToDecimal(n / 10);
      assert s[..|s| - 1] == p;
      DecimalRoundTrip(n / 10);
    }
  }

  /** `${n}` for an integral Number. */
  function IntToDecimal(n: int): string {
    if n < 0 then "-" + NatToDecimal(-n) else NatToDecimal(n)
  }

  lemma NatToDecimalInjective(a: nat, b: nat)
    requires NatToDecimal(a) == NatToDecimal(b)
    ensures a == b
  {
    DecimalRoundTrip(a);
    DecimalRoundTrip(b);
  }

  /** Two different ids never render as the same text. */
  lemma IntToDecimalInjective(a: int, b: int)
    requires IntToDecimal(a) == IntToDecimal(b)
    ensures a == b
  {
    var sa, sb := IntToDecimal(a), IntToDecimal(b);
    assert sa[0] == '-' <==> a < 0;
    assert sb[0] == '-' <==> b < 0;
    if a < 0 {
      assert sa[1..] == NatToDecimal(-a) && sb[1..] == NatToDecimal(-b);
      NatToDecimalInjective(-a, -b);
    } else {
      NatToDecimalInjective(a, b);
    }
  }

  /** What a `load...FromParamsMiddleware` hands on: the document, or the reply that ends the
      request. */
  datatype Loaded<T> = Loaded(doc: T) | Stop(reply: Reply<T>)

  /** `userNotFound` / `placeNotFound`: 404 with `No <what> found with ID <id>`. */
  function NotFoundReply<T>(what: string, id: int): Reply<T> {
    SendText(404, "No " + what + " found with ID " + IntToDecimal(id))
  }

  /** The loader middleware: `findOne({ <what>id: id })`; a database error goes to `next`, a
      missing document is a 404, a found one is handed on. */
  function LoadById<T>(coll: map<int, T>, fails: bool, id: int, what: string): (r: Loaded<T>)
    ensures r.Loaded? <==> !fails && id in coll
    ensures r.Loaded? ==> r.doc == coll[id]
    ensures fails ==> r == Stop(NextError(DatabaseError))
    ensures !fails && id !in coll ==> r == Stop(NotFoundReply(what, id))
  {
    match FindOne(coll, fails, id)
    case LookupError => Stop(NextError(DatabaseError))
    case NotFound => Stop(NotFoundReply(what, id))
    case Found(d) => Loaded(d)
  }

  /** The 404 text names the id: two different ids never give the same reply. */
  lemma NotFoundNamesId<T>(what: string, a: int, b: int)
    requires NotFoundReply<T>(what, a) == NotFoundReply<T>(what, b)
    ensures a == b
  {
    var p := "No " + what + " found with ID ";
    var sa, sb := p + IntToDecimal(a), p + IntToDecimal(b);
    assert sa[|p|..] == IntToDecimal(a) && sb[|p|..] == IntToDecimal(b);
    IntToDecimalInjective(a, b);
  }

  /** `docs` is every document of `coll` once, in ascending order of its id, where `key` reads a
      document's id (`None` when the document has none). */
  ghost predicate ListsAllByKey<T>(coll: map<int, T>, key: T -> Option<int>, docs: seq<T>) {
    && |docs| == |coll|
    && (forall i :: 0 <= i < |docs| ==>
          key(docs[i]).Some? && key(docs[i]).value in coll && coll[key(docs[i]).value] == docs[i])
    && (forall k :: k in coll ==> coll[k] in docs)
    && (forall i, j :: 0 <= i < j < |docs| ==>
          key(docs[i]).Some? && key(docs[j]).Some? && key(docs[i]).value < key(docs[j]).value)
  }

  /** Reading the documents of a collection keyed by their own ids in the order of an ascending
      list of all its keys gives each of them once, in ascending order of id. */
  lemma ValuesInKeyOrder<T>(coll: map<int, T>, key: T -> Option<int>, keys: seq<int>, docs: seq<T>)
    requires forall k :: k in coll ==> key(coll[k]) == Some(k)
    requires |keys| == |coll| && |docs| == |keys|
    requires forall i :: 0 <= i < |keys| ==> keys[i] in coll && docs[i] == coll[keys[i]]
    requires forall k :: k in coll ==> k in keys
    requires forall i, j :: 0 <= i < j < |keys| ==> keys[i] < keys[j]
    ensures ListsAllByKey(coll, key, docs)
  {
    forall k | k in coll ensures coll[k] in docs {
      var i :| 0 <= i < |keys| && keys[i] == k;
      assert docs[i] == coll[k];
    }
  }

  /** `find().sort('<id>')` on a collection whose documents sit under their own ids (as `key`
      reads them): every document once, ascending by id. */
  function SortedValues<T>(coll: map<int, T>, key: T -> Option<int>): (r: seq<T>)
    requires forall k :: k in coll ==> key(coll[k]) == Some(k)
    ensures ListsAllByKey(coll, key, r)
  {
    var keys := SortedKeys(coll.Keys);
    assert |coll.Keys| == |coll|;
    assert forall i :: 0 <= i < |keys| ==> keys[i] in coll;
    var r := seq(|keys|, i requires 0 <= i < |keys| && keys[i] in coll => coll[keys[i]]);
    ValuesInKeyOrder(coll, key, keys, r);
    r
  }
}
