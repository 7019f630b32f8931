/** `getQueryParam` of the configuration page (config/js/main.js:53-63): the value of one
    parameter of the page's query string, or a default. */
module QueryParam {
  /** The JavaScript values the function takes and returns. */
  datatype JsValue = Str(s: string) | Bool(b: bool) | Undefined | Null

  /** The outcome of a call: a returned value, or the `URIError` that `decodeURIComponent`
      throws on a malformed escape. */
  datatype Completion = Normal(value: JsValue) | Threw

  datatype Option<T> = None | Some(value: T)

  /** JavaScript truthiness of the values above. */
  predicate Truthy(v: JsValue)
  {
    match v
    case Str(s) => s != ""
    case Bool(b) => b
    case Undefined => false
    case Null => false
  }

  /** `a || b`: the first operand when it is truthy, the second otherwise. */
  function Or(a: JsValue, b: JsValue): JsValue
  {
    if Truthy(a) then a else b
  }

  /** `a || b` is one of its operands, and truthy exactly when either operand is; with a
      falsy second operand it is truthy exactly when the first one is. */
  lemma OrMeaning(a: JsValue, b: JsValue)
    ensures Or(a, b) == a || Or(a, b) == b
    ensures Truthy(Or(a, b)) <==> Truthy(a) || Truthy(b)
  {
  }

  /** `s.substring(1)`: the string without its first character, empty for an empty string. */
  function DropFirst(s: string): (r: string)
    ensures |s| > 0 ==> [s[0]] + r == s
    ensures |s| == 0 ==> r == ""
  {
    if |s| == 0 then "" else s[1..]
  }

  /** `s.split(sep)` for a one-character separator: the pieces between separators, in order,
      so always at least one and none containing the separator. */
  function Split(s: string, sep: char): (parts: seq<string>)
    ensures |parts| >= 1
    ensures forall i :: 0 <= i < |parts| ==> sep !in parts[i]
    decreases |s|
  {
    if |s| == 0 then [""]
    else
      var rest := Split(s[1..], sep);
      if s[0] == sep then [""] + rest
      else [[s[0]] + rest[0]] + rest[1..]
  }

  /** `parts.join(sep)`. */
  function Join(parts: seq<string>, sep: char): string
    requires |parts| >= 1
    decreases |parts|
  {
    if |parts| == 1 then parts[0] else parts[0] + [sep] + Join(parts[1..], sep)
  }

  /** Splitting loses nothing: joining the pieces gives the string back. */
  lemma {:induction false} JoinSplit(s: string, sep: char)
    ensures Join(Split(s, sep), sep) == s
    decreases |s|
  {
    if |s| > 0 {
      var rest := Split(s[1..], sep);
      JoinSplit(s[1..], sep);
      if s[0] == sep {
        assert Split(s, sep) == [""] + rest;
        assert (([""] + rest)[1..]) == rest;
        assert s == [s[0]] + s[1..];
      } else {
        var parts := Split(s, sep);
        assert parts == [[s[0]] + rest[0]] + rest[1..];
        if |rest| == 1 {
          assert Join(rest, sep) == rest[0];
          assert s == [s[0]] + s[1..];
        } else {
          assert parts[1..] == rest[1..];
          assert Join(rest, sep) == rest[0] + [sep] + Join(rest[1..], sep);
          assert s == [s[0]] + s[1..];
        }
      }
    }
  }

  /** A string without the separator splits into itself alone. */
  lemma {:induction false} SplitPlain(a: string, sep: char)
    requires sep !in a
    ensures Split(a, sep) == [a]
    decreases |a|
  {
    if |a| > 0 {
      SplitPlain(a[1..], sep);
      assert a == [a[0]] + a[1..];
    }
  }

  /** A piece without the separator, then the separator, splits off as the first piece. */
  lemma {:induction false} SplitFirst(a: string, sep: char, b: string)
    requires sep !in a
    ensures Split(a + [sep] + b, sep) == [a] + Split(b, sep)
    decreases |a|
  {
    var s := a + [sep] + b;
    if |a| == 0 {
      assert s == [sep] + b;
      assert s[1..] == b;
    } else {
      SplitFirst(a[1..], sep, b);
      assert a[0] in a;
      assert a == [a[0]] + a[1..];
      assert s[0] == a[0];
      assert s[1..] == a[1..] + [sep] + b;
    }
  }

  /** Joining pieces that hold no separator and splitting again gives the pieces back. */
  lemma {:induction false} SplitJoin(parts: seq<string>, sep: char)
    requires |parts| >= 1
    requires forall i :: 0 <= i < |parts| ==> sep !in parts[i]
    ensures Split(Join(parts, sep), sep) == parts
    decreases |parts|
  {
    if |parts| == 1 {
      SplitPlain(parts[0], sep);
    } else {
      SplitJoin(parts[1..], sep);
      SplitFirst(parts[0], sep, Join(parts[1..], sep));
      assert parts == [parts[0]] + parts[1..];
    }
  }

  /** `pair[0]`: the raw key of a `key=value` piece. */
  function Key(piece: string): string
  {
    Split(piece, '=')[0]
  }

  /** `pair[1]`: the text between the first and the second `=`, or `undefined` when the
      piece has no `=`. */
  function RawValue(piece: string): JsValue
  {
    var pair := Split(piece, '=');
    if |pair| >= 2 then Str(pair[1]) else Undefined
  }

  /** The string `decodeURIComponent` converts its argument to. */
  function ToJsString(v: JsValue): string
  {
    match v
    case Str(s) => s
    case Bool(b) => if b then "true" else "false"
    case Undefined => "undefined"
    case Null => "null"
  }

  /** The index of the first piece whose key is `variable`, if any. */
  function FirstMatch(vars: seq<string>, variable: string): (r: Option<nat>)
    ensures r.Some? ==> r.value < |vars| && Key(vars[r.value]) == variable
    ensures r.Some? ==> forall j :: 0 <= j < r.value ==> Key(vars[j]) != variable
    ensures r.None? ==> forall j :: 0 <= j < |vars| ==> Key(vars[j]) != variable
    decreases |vars|
  {
    if |vars| == 0 then None
    else if Key(vars[0]) == variable then Some(0)
    else match FirstMatch(vars[1..], variable)
      case None => None
      case Some(i) => Some(i + 1)
  }

  /** What `getQueryParam(variable, defaultValue)` gives for the page's `location.search`,
      with `decode` standing for `decodeURIComponent` (None where it throws). */
  function Spec(search: string, variable: string, defaultValue: JsValue, decode: string -> Option<string>): Completion
  {
    var vars := Split(DropFirst(search), '&');
    match FirstMatch(vars, variable)
    case Some(i) =>
      (match decode(ToJsString(RawValue(vars[i])))
       case Some(text) => Normal(Str(text))
       case None => Threw)
    case None => Normal(Or(defaultValue, Bool(false)))
  }

  /** `getQueryParam` (main.js:53-63): split the query on `&`, scan the pieces in order and
      return the decoded value of the first whose key matches; otherwise the default, or
      `false` when the default is falsy. */
  method GetQueryParam(search: string, variable: string, defaultValue: JsValue, decode: string -> Option<string>)
    returns (r: Completion)
    ensures r == Spec(search, variable, defaultValue, decode)
  {
    var query := DropFirst(search);
    var vars := Split(query, '&');
    var i := 0;
    while i < |vars|
      invariant 0 <= i <= |vars|
      invariant forall j :: 0 <= j < i ==> Key(vars[j]) != variable
    {
      var pair := Split(vars[i], '=');
      if pair[0] == variable {
        var arg := if |pair| >= 2 then Str(pair[1]) else Undefined;
        var decoded := decode(ToJsString(arg));
        if decoded.Some? {
          return Normal(Str(decoded.value));
        } else {
          return Threw;
        }
      }
      i := i + 1;
    }
    return Normal(Or(defaultValue, Bool(false)));
  }

  /** The first character of `location.search` (the `?`) is never part of the query: any
      first character gives the same answer. */
  lemma LeadingCharIgnored(c: char, d: char, query: string, variable: string, defaultValue: JsValue, decode: string -> Option<string>)
    ensures Spec([c] + query, variable, defaultValue, decode) == Spec([d] + query, variable, defaultValue, decode)
  {
    assert ([c] + query)[1..] == query;
    assert ([d] + query)[1..] == query;
  }

  /** With no piece keyed `variable`, the answer is the default when it is truthy and
      `false` otherwise. */
  lemma MissingGivesDefault(search: string, variable: string, defaultValue: JsValue, decode: string -> Option<string>)
    requires forall p :: p in Split(DropFirst(search), '&') ==> Key(p) != variable
    ensures Spec(search, variable, defaultValue, decode) == Normal(if Truthy(defaultValue) then defaultValue else Bool(false))
  {
    var vars := Split(DropFirst(search), '&');
    assert forall j :: 0 <= j < |vars| ==> vars[j] in vars;
  }

  /** Only the first piece with the key counts: pieces after it are never read. */
  lemma FirstOccurrenceWins(vars: seq<string>, later: seq<string>, variable: string)
    requires FirstMatch(vars, variable).Some?
    ensures FirstMatch(vars + later, variable) == FirstMatch(vars, variable)
  {
    var i := FirstMatch(vars, variable).value;
    var all := vars + later;
    assert all[i] == vars[i];
    assert forall j :: 0 <= j < i ==> all[j] == vars[j];
    assert Key(all[i]) == variable;
    assert forall j :: 0 <= j < i ==> Key(all[j]) != variable;
  }

  /** A key, a value and further pieces, none holding `=`. */
  lemma PiecesPlain(key: string, value: string, tail: seq<string>)
    requires '=' !in key && '=' !in value
    requires forall k :: 0 <= k < |tail| ==> '=' !in tail[k]
    ensures var parts := [key, value] + tail; forall k :: 0 <= k < |parts| ==> '=' !in parts[k]
  {
    var parts := [key, value] + tail;
    forall k | 0 <= k < |parts|
      ensures '=' !in parts[k]
    {
      if k >= 2 {
        assert parts[k] == tail[k - 2];
      }
    }
  }

  /** A piece `key=value`, possibly followed by further `=`-separated text: its key is the
      text before the first `=` and its value the text up to the second. */
  lemma MatchGivesSecondSegment(key: string, value: string, tail: seq<string>)
    requires '=' !in key && '=' !in value
    requires forall k :: 0 <= k < |tail| ==> '=' !in tail[k]
    ensures Key(Join([key, value] + tail, '=')) == key
    ensures RawValue(Join([key, value] + tail, '=')) == Str(value)
  {
    var parts := [key, value] + tail;
    PiecesPlain(key, value, tail);
    SplitJoin(parts, '=');
    var pair := Split(Join(parts, '='), '=');
    assert pair == parts;
    assert |pair| >= 2 && pair[0] == key && pair[1] == value;
  }

  /** A matching piece without `=` hands `undefined` to `decodeURIComponent`, which decodes
      the text "undefined". */
  lemma KeyWithoutValue(search: string, variable: string, defaultValue: JsValue, decode: string -> Option<string>)
    requires '=' !in variable
    requires FirstMatch(Split(DropFirst(search), '&'), variable).Some?
    requires var vars := Split(DropFirst(search), '&'); vars[FirstMatch(vars, variable).value] == variable
    ensures Spec(search, variable, defaultValue, decode)
      == (match decode("undefined") case Some(text) => Normal(Str(text)) case None => Threw)
  {
    SplitPlain(variable, '=');
  }
}
