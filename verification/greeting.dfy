/** The `greet` tool: the fixed template "Hello, {name}!". */
module Greeting {
  import opened Optional

  const Prefix := "Hello, "
  const Suffix := "!"

  /** `greet(name)`: the name between the prefix and the suffix, unchanged. */
  function Greet(name: string): (r: string)
    ensures |r| == |Prefix| + |name| + |Suffix|
    ensures r[..|Prefix|] == Prefix
    ensures r[|Prefix|..|r| - |Suffix|] == name
    ensures r[|r| - |Suffix|..] == Suffix
  {
    Prefix + name + Suffix
  }

  /** Recovers the name from a greeting; `None` for anything else. */
  function NameOfGreeting(r: string): (name: Option<string>)
    ensures name.Some? ==> |r| == |Prefix| + |name.value| + |Suffix|
  {
    if |r| >= |Prefix| + |Suffix| && r[..|Prefix|] == Prefix && r[|r| - |Suffix|..] == Suffix
    then Some(r[|Prefix|..|r| - |Suffix|])
    else None
  }

  /** Every greeting names the person it greets. */
  lemma {:induction false} GreetRoundTrip(name: string)
    ensures NameOfGreeting(Greet(name)) == Some(name)
  {
    var r := Greet(name);
    assert r[..|Prefix|] == Prefix && r[|r| - |Suffix|..] == Suffix;
  }

  /** Whatever parses as a greeting is the greeting of the name it holds. */
  lemma {:induction false} GreetingParsesBack(r: string)
    requires NameOfGreeting(r).Some?
    ensures Greet(NameOfGreeting(r).value) == r
  {
    var name := r[|Prefix|..|r| - |Suffix|];
    assert r == r[..|Prefix|] + name + r[|r| - |Suffix|..];
  }

  /** Different names get different greetings. */
  lemma GreetInjective(a: string, b: string)
    requires Greet(a) == Greet(b)
    ensures a == b
  {
    GreetRoundTrip(a);
    GreetRoundTrip(b);
  }

  lemma GreetExamples()
    ensures Greet("Ford") == "Hello, Ford!"
    ensures Greet("") == "Hello, !"
    ensures Greet("Alice") == "Hello, Alice!"
  {
  }
}
