/**
 * The attribute-schema constructor (`initAttrs`): the initializer every entity type gets
 * from its ordered attribute list `attrs` and its `defaults`.
 *
 * Positional arguments are written into the keyword arguments by schema position, left
 * to right, so a positional value replaces a keyword argument of the same name. Then
 * any keyword name outside the schema is rejected with a `TypeError` naming all of them
 * in sorted order, before any attribute is set. Otherwise every schema attribute is set
 * to its supplied value, else its default, else `None`.
 */
module Schema {
  import opened Wrappers
  import opened Text
  import StrOrder

  datatype InitError =
    | IndexError             // more positional arguments than schema attributes
    | TypeError(message: string)

  /** The names of a schema, as a set. */
  function Names(attrs: seq<string>): set<string> {
    set k | k in attrs
  }

  /**
   * Stores each positional argument from position `i` on under the attribute name at
   * the same position, overwriting a keyword value of that name; a positional argument
   * with no attribute name at its position is an index error.
   */
  function MergeFrom<V>(attrs: seq<string>, args: seq<V>, i: nat, kwargs: map<string, V>): (r: Result<map<string, V>, InitError>)
    requires i <= |args| && i <= |attrs|
    ensures r.Success? <==> |args| <= |attrs|
    ensures r.Failure? ==> r.error == IndexError
    ensures r.Success? ==> r.value.Keys == kwargs.Keys + Names(attrs[i..|args|])
    ensures r.Success? ==>
      forall j :: i <= j < |args| && attrs[j] !in attrs[j + 1..|args|] ==> r.value[attrs[j]] == args[j]
    ensures r.Success? ==>
      forall k :: k in kwargs && k !in attrs[i..|args|] ==> r.value[k] == kwargs[k]
    decreases |args| - i
  {
    if i == |args| then Success(kwargs)
    else if i >= |attrs| then Failure(IndexError)
    else
      var r := MergeFrom(attrs, args, i + 1, kwargs[attrs[i] := args[i]]);
      if r.Success? then
        MergeStep(attrs, args, i, kwargs, r.value);
        r
      else
        r
  }

  /** One step of the merge: what binding position `i` and then the rest leaves. */
  lemma MergeStep<V>(attrs: seq<string>, args: seq<V>, i: nat, kwargs: map<string, V>, m: map<string, V>)
    requires i < |args| <= |attrs|
    requires m.Keys == kwargs[attrs[i] := args[i]].Keys + Names(attrs[i + 1..|args|])
    requires forall j :: i + 1 <= j < |args| && attrs[j] !in attrs[j + 1..|args|] ==> m[attrs[j]] == args[j]
    requires forall k :: k in kwargs[attrs[i] := args[i]] && k !in attrs[i + 1..|args|] ==> m[k] == kwargs[attrs[i] := args[i]][k]
    ensures m.Keys == kwargs.Keys + Names(attrs[i..|args|])
    ensures forall j :: i <= j < |args| && attrs[j] !in attrs[j + 1..|args|] ==> m[attrs[j]] == args[j]
    ensures forall k :: k in kwargs && k !in attrs[i..|args|] ==> m[k] == kwargs[k]
  {
    var tail := attrs[i + 1..|args|];
    assert attrs[i..|args|] == [attrs[i]] + tail;
    assert Names(attrs[i..|args|]) == {attrs[i]} + Names(tail);
  }

  /** The keyword arguments after the positional ones are merged in. */
  function MergePositional<V>(attrs: seq<string>, args: seq<V>, kwargs: map<string, V>): (r: Result<map<string, V>, InitError>)
    ensures r.Success? <==> |args| <= |attrs|
    ensures r.Failure? ==> r.error == IndexError
    ensures r.Success? ==> r.value.Keys == kwargs.Keys + Names(attrs[..|args|])
    ensures r.Success? ==>
      forall j :: 0 <= j < |args| && attrs[j] !in attrs[j + 1..|args|] ==> r.value[attrs[j]] == args[j]
    ensures r.Success? ==>
      forall k :: k in kwargs && k !in attrs[..|args|] ==> r.value[k] == kwargs[k]
  {
    var r := MergeFrom(attrs, args, 0, kwargs);
    if r.Success? then
      assert attrs[0..|args|] == attrs[..|args|];
      r
    else
      r
  }

  /** Each name in single quotes, separated by a comma and a space. */
  function JoinQuoted(names: seq<string>): string {
    if |names| == 0 then ""
    else if |names| == 1 then "'" + names[0] + "'"
    else "'" + names[0] + "', " + JoinQuoted(names[1..])
  }

  /** The `TypeError` message for a non-empty set of unexpected keyword names. */
  function UnknownMessage(unknown: set<string>): string
    requires unknown != {}
  {
    var desc := if |unknown| == 1 then "an unexpected keyword argument" else "unexpected keyword arguments";
    "__init__() got " + desc + " " + JoinQuoted(StrOrder.Sorted(unknown))
  }

  /** The value an attribute ends up with: supplied, else its default, else `None`. */
  function AttrValue<V>(k: string, supplied: map<string, V>, defaults: map<string, V>): Option<V> {
    if k in supplied then Some(supplied[k])
    else if k in defaults then Some(defaults[k])
    else None
  }

  /**
   * The final loop of the initializer: the attributes are set one by one in schema order,
   * each to its value, the last attribute after all the earlier ones.
   */
  function BuildFields<V>(attrs: seq<string>, supplied: map<string, V>, defaults: map<string, V>): (r: map<string, Option<V>>)
    ensures r.Keys == Names(attrs)
    ensures forall k :: k in attrs ==> r[k] == AttrValue(k, supplied, defaults)
    decreases |attrs|
  {
    if |attrs| == 0 then map[]
    else
      var n := |attrs| - 1;
      var earlier := attrs[..n];
      assert Names(attrs) == Names(earlier) + {attrs[n]} by {
        assert attrs == earlier + [attrs[n]];
      }
      assert forall k :: k in attrs ==> k in earlier || k == attrs[n] by {
        assert attrs == earlier + [attrs[n]];
      }
      BuildFields(earlier, supplied, defaults)[attrs[n] := AttrValue(attrs[n], supplied, defaults)]
  }

  /** Positional arguments only add schema names, so the unknown names are those of the keyword arguments. */
  lemma UnknownAfterMerge<V>(attrs: seq<string>, n: nat, kwargs: map<string, V>, merged: map<string, V>)
    requires n <= |attrs| && merged.Keys == kwargs.Keys + Names(attrs[..n])
    ensures merged.Keys - Names(attrs) == kwargs.Keys - Names(attrs)
    ensures merged.Keys - Names(attrs) == {} <==> kwargs.Keys <= Names(attrs)
  {
    assert Names(attrs[..n]) <= Names(attrs) by {
      forall k | k in Names(attrs[..n])
        ensures k in Names(attrs)
      {
        var j :| 0 <= j < n && attrs[..n][j] == k;
        assert attrs[j] == k;
      }
    }
    if kwargs.Keys - Names(attrs) == {} {
      assert kwargs.Keys <= Names(attrs) by {
        forall k | k in kwargs.Keys
          ensures k in Names(attrs)
        {
          assert k !in kwargs.Keys - Names(attrs);
        }
      }
    }
  }

  /**
   * The initializer: merges `args` into `kwargs` by schema position, rejects keyword
   * names outside the schema, and otherwise returns the value of every schema attribute.
   */
  function InitAttrs<V>(attrs: seq<string>, defaults: map<string, V>, args: seq<V>, kwargs: map<string, V>): (r: Result<map<string, Option<V>>, InitError>)
    ensures |args| > |attrs| ==> r == Failure(IndexError)
    ensures |args| <= |attrs| ==> (r.Success? <==> kwargs.Keys <= Names(attrs))
    ensures |args| <= |attrs| && kwargs.Keys - Names(attrs) != {} ==>
      r == Failure(TypeError(UnknownMessage(kwargs.Keys - Names(attrs))))
    ensures r.Success? ==> r.value.Keys == Names(attrs)
    ensures r.Success? ==>
      forall k :: k in attrs && k !in attrs[..|args|] ==> r.value[k] == AttrValue(k, kwargs, defaults)
    ensures r.Success? ==>
      forall j :: 0 <= j < |args| && attrs[j] !in attrs[j + 1..|args|] ==> r.value[attrs[j]] == Some(args[j])
  {
    var m := MergePositional(attrs, args, kwargs);
    if m.Failure? then Failure(m.error)
    else
      var merged := m.value;
      UnknownAfterMerge(attrs, |args|, kwargs, merged);
      var unknown := merged.Keys - Names(attrs);
      if unknown != {} then Failure(TypeError(UnknownMessage(unknown)))
      else
        var fields := BuildFields(attrs, merged, defaults);
        assert forall j :: 0 <= j < |args| ==> attrs[j] in attrs;
        Success(fields)
  }

  /**
   * A keyword argument naming an attribute that a positional argument also binds is
   * overwritten, not reported: construction succeeds and the positional value is kept.
   */
  lemma PositionalOverridesKeyword<V>(attrs: seq<string>, defaults: map<string, V>, args: seq<V>, kwargs: map<string, V>, j: nat)
    requires |args| <= |attrs| && kwargs.Keys <= Names(attrs)
    requires j < |args| && attrs[j] in kwargs && attrs[j] !in attrs[j + 1..|args|]
    ensures InitAttrs(attrs, defaults, args, kwargs).Success?
    ensures InitAttrs(attrs, defaults, args, kwargs).value[attrs[j]] == Some(args[j])
  {
  }

  /** One unexpected keyword: the singular wording and the name in quotes. */
  lemma OneUnknownMessage(k: string)
    ensures UnknownMessage({k}) == "__init__() got " + "an unexpected keyword argument" + " " + ("'" + k + "'")
  {
    assert |{k}| == 1;
    assert StrOrder.Sorted({k}) == [k] by {
      StrOrder.SortedUnique([k], {k});
    }
    assert JoinQuoted([k]) == "'" + k + "'";
  }

  /** Two unexpected keywords: the plural wording and both names, quoted, in ascending order. */
  lemma TwoUnknownMessage(a: string, b: string)
    requires StrOrder.Below(a, b) && a != b
    ensures UnknownMessage({a, b}) == "__init__() got " + "unexpected keyword arguments" + " " + JoinQuoted([a, b])
  {
    assert |{a, b}| == 2;
    assert StrOrder.Sorted({a, b}) == [a, b] by {
      assert StrOrder.StrictlyAscending([a, b]);
      StrOrder.SortedUnique([a, b], {a, b});
    }
  }

  /** Two names are listed quoted and separated by a comma and a space. */
  lemma JoinQuotedTwo(a: string, b: string)
    ensures JoinQuoted([a, b]) == "'" + a + "', '" + b + "'"
  {
    assert [a, b][1..] == [b];
    assert JoinQuoted([a, b]) == "'" + a + "', " + ("'" + b + "'");
    assert "', " + "'" == "', '";
  }

  /**
   * Reads back a list written by `JoinQuoted`: quoted names separated by `, `.
   * `None` when the text is not such a list.
   */
  function UnquoteList(s: string): Option<seq<string>>
    decreases |s|
  {
    if s == "" then Some([])
    else if s[0] != '\'' then None
    else
      match FirstIndexOf(s[1..], '\'')
      case None => None
      case Some(k) =>
        var name := s[1..k + 1];
        var after := s[k + 2..];
        if after == "" then Some([name])
        else if |after| < 2 || after[..2] != ", " then None
        else
          match UnquoteList(after[2..])
          case Some(more) => if more == [] then None else Some([name] + more)
          case None => None
  }

  /** No name contains a quote character. */
  predicate Unquoted(names: seq<string>) {
    forall i :: 0 <= i < |names| ==> '\'' !in names[i]
  }

  /** The first quoted name of a list is found by the closing quote after it. */
  lemma UnquoteHead(n: string, after: string)
    requires '\'' !in n
    ensures
      var s := "'" + n + "'" + after;
      s != "" && s[0] == '\'' && FirstIndexOf(s[1..], '\'') == Some(|n|) &&
      s[1..|n| + 1] == n && s[|n| + 2..] == after
  {
    var s := "'" + n + "'" + after;
    assert s[1..] == n + "'" + after;
    assert s[1..][..|n|] == n;
    FirstIndexOfIs(s[1..], '\'', |n|);
  }

  /** A quoted name followed by a separator and a non-empty list reads back as that name and the list. */
  lemma UnquoteCons(s: string, n: string, rest: string, more: seq<string>)
    requires '\'' !in n && UnquoteList(rest) == Some(more) && more != []
    requires s == "'" + n + "'" + (", " + rest)
    ensures UnquoteList(s) == Some([n] + more)
  {
    UnquoteHead(n, ", " + rest);
    var after := s[|n| + 2..];
    assert after[..2] == ", " && after[2..] == rest;
  }

  /** A single quoted name reads back as itself. */
  lemma UnquoteOne(n: string)
    requires '\'' !in n
    ensures UnquoteList(JoinQuoted([n])) == Some([n])
  {
    UnquoteHead(n, "");
    assert JoinQuoted([n]) == "'" + n + "'" + "";
  }

  /** A list of two or more names: the first, quoted, then a separator and the rest. */
  lemma JoinQuotedCons(names: seq<string>)
    requires |names| > 1
    ensures JoinQuoted(names) == "'" + names[0] + "'" + (", " + JoinQuoted(names[1..]))
  {
  }

  /** The tail of a list of unquoted names is one too. */
  lemma UnquotedTail(names: seq<string>)
    requires |names| > 0 && Unquoted(names)
    ensures Unquoted(names[1..]) && '\'' !in names[0]
  {
    forall i | 0 <= i < |names| - 1
      ensures '\'' !in names[1..][i]
    {
      assert names[1..][i] == names[i + 1];
    }
  }

  /** The names listed in an error message can be read back from it, in order. */
  lemma {:induction false} UnquoteJoinQuoted(names: seq<string>)
    requires Unquoted(names)
    ensures UnquoteList(JoinQuoted(names)) == Some(names)
    decreases |names|
  {
    if |names| == 1 {
      assert names == [names[0]];
      UnquoteOne(names[0]);
    } else if |names| > 1 {
      UnquotedTail(names);
      UnquoteJoinQuoted(names[1..]);
      JoinQuotedCons(names);
      UnquoteCons(JoinQuoted(names), names[0], JoinQuoted(names[1..]), names[1..]);
      assert names == [names[0]] + names[1..];
    }
  }
}
