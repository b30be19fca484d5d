/**
 * HTTP header fields as the request hands them to a middleware: a list of
 * (name, value) pairs in arrival order, together with the two ways the
 * server code turns such a list into a Python dict (exact names, and names
 * folded to lower case) and looks a name up in it.
 */
module Headers {
  import opened Optional

  datatype Field = Field(name: string, value: string)

  /** ASCII lower-casing of one character; every other character is kept. */
  function LowerChar(c: char): (d: char)
    ensures !('A' <= d <= 'Z')
    ensures 'A' <= c <= 'Z' ==> d as int == c as int + 32
    ensures !('A' <= c <= 'Z') ==> d == c
  {
    if 'A' <= c <= 'Z' then (c as int + 32) as char else c
  }

  /** `s.lower()` restricted to ASCII letters. */
  function Lower(s: string): (r: string)
    ensures |r| == |s|
    ensures forall i :: 0 <= i < |s| ==> r[i] == LowerChar(s[i])
  {
    seq(|s|, i requires 0 <= i < |s| => LowerChar(s[i]))
  }

  predicate IsLower(s: string) {
    forall i :: 0 <= i < |s| ==> !('A' <= s[i] <= 'Z')
  }

  /** Lowering leaves no upper-case letter, and lowering twice is lowering once. */
  lemma LowerIsLower(s: string)
    ensures IsLower(Lower(s))
    ensures Lower(Lower(s)) == Lower(s)
  {
  }

  /** A string with no upper-case ASCII letter is its own lower-case form. */
  lemma LowerOfLower(s: string)
    requires IsLower(s)
    ensures Lower(s) == s
  {
  }

  /** The header names present in a field list. */
  function Names(fields: seq<Field>): set<string> {
    set i | 0 <= i < |fields| :: fields[i].name
  }

  /**
   * The dict a Python program obtains by inserting the pairs in order: a
   * later field with the same name overwrites an earlier one.
   */
  function Dict(fields: seq<Field>): (d: map<string, string>)
    ensures d.Keys == Names(fields)
  {
    if |fields| == 0 then map[]
    else
      var front, last := fields[..|fields| - 1], fields[|fields| - 1];
      assert Names(fields) == Names(front) + {last.name} by {
        forall n | n in Names(fields) ensures n in Names(front) + {last.name} {
          var i :| 0 <= i < |fields| && fields[i].name == n;
          if i < |fields| - 1 {
            assert front[i] == fields[i];
          }
        }
        forall n | n in Names(front) ensures n in Names(fields) {
          var i :| 0 <= i < |front| && front[i].name == n;
          assert fields[i] == front[i];
        }
      }
      Dict(front)[last.name := last.value]
  }

  /** `d.get(k)`. */
  function Get(d: map<string, string>, k: string): (r: Option<string>)
    ensures r.Some? <==> k in d
    ensures r.Some? ==> r.value == d[k]
  {
    if k in d then Some(d[k]) else None
  }

  /** Field `i` carries name `k` and no later field does. */
  predicate IsLastWith(fields: seq<Field>, i: int, k: string) {
    && 0 <= i < |fields|
    && fields[i].name == k
    && forall j :: i < j < |fields| ==> fields[j].name != k
  }

  /** The last field named `k` wins the dict entry for `k`. */
  lemma {:induction false} DictLastWins(fields: seq<Field>, i: int, k: string)
    requires IsLastWith(fields, i, k)
    ensures Get(Dict(fields), k) == Some(fields[i].value)
    decreases |fields|
  {
    var front, last := fields[..|fields| - 1], fields[|fields| - 1];
    if i < |fields| - 1 {
      assert last.name != k;
      assert IsLastWith(front, i, k) by {
        forall j | i < j < |front| ensures front[j].name != k {
          assert front[j] == fields[j];
        }
      }
      DictLastWins(front, i, k);
    }
  }

  /** Every dict entry comes from the last field carrying its name. */
  lemma {:induction false} DictValueOrigin(fields: seq<Field>, k: string)
    requires k in Dict(fields)
    ensures exists i :: IsLastWith(fields, i, k) && fields[i].value == Dict(fields)[k]
    decreases |fields|
  {
    var front, last := fields[..|fields| - 1], fields[|fields| - 1];
    if last.name == k {
      assert IsLastWith(fields, |fields| - 1, k);
    } else {
      DictValueOrigin(front, k);
      var i :| IsLastWith(front, i, k) && front[i].value == Dict(front)[k];
      assert IsLastWith(fields, i, k);
    }
  }

  /**
   * `Dict(fields).get(k)` in full: `None` exactly when no field is named
   * `k`, otherwise the value of the last field named `k`.
   */
  lemma DictGet(fields: seq<Field>, k: string)
    ensures Get(Dict(fields), k).None? <==> forall i :: 0 <= i < |fields| ==> fields[i].name != k
    ensures forall i :: IsLastWith(fields, i, k) ==> Get(Dict(fields), k) == Some(fields[i].value)
    ensures Get(Dict(fields), k).Some? ==>
              exists i :: IsLastWith(fields, i, k) && Get(Dict(fields), k) == Some(fields[i].value)
  {
    forall i | IsLastWith(fields, i, k) ensures Get(Dict(fields), k) == Some(fields[i].value) {
      DictLastWins(fields, i, k);
    }
    if k in Dict(fields) {
      DictValueOrigin(fields, k);
    } else {
      forall i | 0 <= i < |fields| ensures fields[i].name != k {
        assert fields[i].name in Names(fields);
      }
    }
  }

  /** The field list with every name lower-cased, values and order kept. */
  function LowerNames(fields: seq<Field>): (r: seq<Field>)
    ensures |r| == |fields|
    ensures forall i :: 0 <= i < |r| ==> r[i] == Field(Lower(fields[i].name), fields[i].value)
  {
    seq(|fields|, i requires 0 <= i < |fields| => Field(Lower(fields[i].name), fields[i].value))
  }
}
