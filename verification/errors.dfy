/** errors.go: a validation error is a field and a message; a list of them
    renders as one message for the API response. */
module Errors {
  import opened Base
  import opened Text

  datatype ValidationError = ValidationError(field: string, message: string)

  type ValidationErrors = seq<ValidationError>

  /** NewValidationError: the field and message are stored verbatim. */
  function NewValidationError(field: string, message: string): (e: ValidationError)
    ensures e.field == field && e.message == message
  {
    ValidationError(field, message)
  }

  /** ValidationError.Error: "field: message". */
  function ErrorText(e: ValidationError): string
  {
    e.field + ": " + e.message
  }

  /** Splits a rendered error at its first ": " (the partner of ErrorText). */
  function SplitErrorText(s: string): Option<(string, string)>
    decreases |s|
  {
    if |s| < 2 then None
    else if s[0] == ':' then (if s[1] == ' ' then Some(("", s[2..])) else None)
    else
      match SplitErrorText(s[1..])
      case None => None
      case Some(p) => Some(([s[0]] + p.0, p.1))
  }

  /** A rendered error gives back its field and message, provided the field
      has no colon of its own. */
  lemma {:induction false} ErrorTextRoundTrip(e: ValidationError)
    requires forall i | 0 <= i < |e.field| :: e.field[i] != ':'
    ensures SplitErrorText(ErrorText(e)) == Some((e.field, e.message))
    decreases |e.field|
  {
    var s := ErrorText(e);
    if |e.field| == 0 {
      assert s == ": " + e.message;
      assert s[2..] == e.message;
    } else {
      var rest := ValidationError(e.field[1..], e.message);
      ErrorTextRoundTrip(rest);
      assert s[1..] == ErrorText(rest);
      assert [e.field[0]] + e.field[1..] == e.field;
    }
  }

  /** Add: the list with one more error at the end. */
  function Add(errs: ValidationErrors, field: string, message: string): (r: ValidationErrors)
    ensures |r| == |errs| + 1
    ensures r[..|errs|] == errs
    ensures r[|errs|].field == field && r[|errs|].message == message
  {
    errs + [NewValidationError(field, message)]
  }

  /** ValidationErrors.HasErrors. */
  predicate HasErrors(errs: ValidationErrors): (b: bool)
    ensures b <==> errs != []
  {
    |errs| > 0
  }

  function Texts(errs: ValidationErrors): seq<string>
  {
    seq(|errs|, i requires 0 <= i < |errs| => ErrorText(errs[i]))
  }

  function Header(n: nat): string
  {
    "validation failed (" + NatToString(n) + " errors): "
  }

  const NoErrorsText := "no validation errors"

  /** Reference rendering of a list: a fixed text when empty, the error's own
      text when single, otherwise a header with the count followed by the
      errors' texts joined by "; ". */
  function ErrorsText(errs: ValidationErrors): string
  {
    if |errs| == 0 then NoErrorsText
    else if |errs| == 1 then ErrorText(errs[0])
    else Header(|errs|) + Join(Texts(errs), "; ")
  }

  /** ValidationErrors.Error, with the source's loop that adds a "; " before
      every error but the first. */
  method Render(errs: ValidationErrors) returns (msg: string)
    ensures msg == ErrorsText(errs)
  {
    if |errs| == 0 {
      return NoErrorsText;
    }
    if |errs| == 1 {
      return ErrorText(errs[0]);
    }
    msg := Header(|errs|);
    var i := 0;
    while i < |errs|
      invariant 0 <= i <= |errs|
      invariant i == 0 ==> msg == Header(|errs|)
      invariant i > 0 ==> msg == Header(|errs|) + Join(Texts(errs[..i]), "; ")
    {
      if i > 0 {
        JoinSnoc(Texts(errs[..i]), ErrorText(errs[i]), "; ");
        assert Texts(errs[..i + 1]) == Texts(errs[..i]) + [ErrorText(errs[i])];
        msg := msg + "; ";
      } else {
        assert Texts(errs[..1]) == [ErrorText(errs[0])];
      }
      msg := msg + ErrorText(errs[i]);
      i := i + 1;
    }
    assert errs[..i] == errs;
  }

  /** The rendering is the fixed "no errors" text exactly when the list is
      empty: no non-empty list renders to it. */
  lemma RenderEmptyIff(errs: ValidationErrors)
    ensures ErrorsText(errs) == NoErrorsText <==> !HasErrors(errs)
  {
    var lit := NoErrorsText;
    forall i | 0 <= i < |lit| ensures lit[i] != ':' {
      assert lit[i] in "no validatierrs";
    }
    if |errs| == 1 {
      var s := ErrorText(errs[0]);
      assert s[|errs[0].field|] == ':';
    } else if |errs| > 1 {
      assert ErrorsText(errs)[0] == 'v';
    }
  }

  /** A list of n >= 2 errors renders as the header with n, then the n texts
      in order with exactly n - 1 separators between them. */
  lemma RenderMany(errs: ValidationErrors)
    requires |errs| >= 2
    ensures ErrorsText(errs)[..|Header(|errs|)|] == Header(|errs|)
    ensures |ErrorsText(errs)| == |Header(|errs|)| + TotalLength(Texts(errs)) + 2 * (|errs| - 1)
    ensures ErrorsText(errs)[|Header(|errs|)|..|Header(|errs|)| + |ErrorText(errs[0])|] == ErrorText(errs[0])
  {
    JoinLength(Texts(errs), "; ");
    var j := Join(Texts(errs), "; ");
    assert j == ErrorText(errs[0]) + "; " + Join(Texts(errs)[1..], "; ");
  }

  /* ---------------- collecting errors ---------------- */

  /** The common shape of the validators' loops: visit the items in order and
      append the error, if any, that each one yields. */
  function Collect<X>(xs: seq<X>, f: X -> Option<ValidationError>): ValidationErrors
    decreases |xs|
  {
    if |xs| == 0 then []
    else
      var last := f(xs[|xs| - 1]);
      Collect(xs[..|xs| - 1], f) + (if last.Some? then [last.value] else [])
  }

  /** Every collected error is the error of some item. */
  lemma {:induction false} CollectSound<X>(xs: seq<X>, f: X -> Option<ValidationError>, i: int)
    requires 0 <= i < |Collect(xs, f)|
    ensures exists j | 0 <= j < |xs| :: f(xs[j]) == Some(Collect(xs, f)[i])
    decreases |xs|
  {
    var pre := xs[..|xs| - 1];
    if i < |Collect(pre, f)| {
      CollectSound(pre, f, i);
      var j :| 0 <= j < |pre| && f(pre[j]) == Some(Collect(pre, f)[i]);
      assert xs[j] == pre[j];
    }
  }

  /** Every item's error is collected. */
  lemma {:induction false} CollectComplete<X>(xs: seq<X>, f: X -> Option<ValidationError>, j: int)
    requires 0 <= j < |xs| && f(xs[j]).Some?
    ensures f(xs[j]).value in Collect(xs, f)
    decreases |xs|
  {
    var pre := xs[..|xs| - 1];
    if j < |pre| {
      assert xs[j] == pre[j];
      CollectComplete(pre, f, j);
    }
  }

  /** Errors come out in the order of the items that yield them. */
  lemma {:induction false} CollectOrdered<X>(xs: seq<X>, f: X -> Option<ValidationError>, i: int, k: int)
    requires 0 <= i < k < |Collect(xs, f)|
    ensures exists j1, j2 | 0 <= j1 < j2 < |xs| ::
      f(xs[j1]) == Some(Collect(xs, f)[i]) && f(xs[j2]) == Some(Collect(xs, f)[k])
    decreases |xs|
  {
    var pre := xs[..|xs| - 1];
    var r0 := Collect(pre, f);
    if k < |r0| {
      CollectOrdered(pre, f, i, k);
      var j1, j2 :| 0 <= j1 < j2 < |pre| && f(pre[j1]) == Some(r0[i]) && f(pre[j2]) == Some(r0[k]);
      assert xs[j1] == pre[j1] && xs[j2] == pre[j2];
    } else {
      CollectSound(pre, f, i);
      var j1 :| 0 <= j1 < |pre| && f(pre[j1]) == Some(r0[i]);
      assert xs[j1] == pre[j1];
      assert f(xs[|xs| - 1]) == Some(Collect(xs, f)[k]);
    }
  }

  /** The number of items that yield an error. */
  function Hits<X>(xs: seq<X>, f: X -> Option<ValidationError>): nat
    decreases |xs|
  {
    if |xs| == 0 then 0
    else Hits(xs[..|xs| - 1], f) + (if f(xs[|xs| - 1]).Some? then 1 else 0)
  }

  /** One error per item that yields one, and some error exactly when some
      item yields one. */
  lemma {:induction false} CollectCount<X>(xs: seq<X>, f: X -> Option<ValidationError>)
    ensures |Collect(xs, f)| == Hits(xs, f)
    ensures |Collect(xs, f)| <= |xs|
    ensures |Collect(xs, f)| > 0 <==> exists j | 0 <= j < |xs| :: f(xs[j]).Some?
    decreases |xs|
  {
    if |xs| > 0 {
      var pre := xs[..|xs| - 1];
      CollectCount(pre, f);
      if exists j | 0 <= j < |pre| :: f(pre[j]).Some? {
        var j :| 0 <= j < |pre| && f(pre[j]).Some?;
        assert xs[j] == pre[j];
      }
      if exists j | 0 <= j < |xs| :: f(xs[j]).Some? {
        var j :| 0 <= j < |xs| && f(xs[j]).Some?;
        if j < |pre| {
          assert xs[j] == pre[j];
        }
      }
    }
  }
}
