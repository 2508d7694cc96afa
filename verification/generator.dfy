/**
  The test-data generator (generate-csv.js): unique email addresses built
  from first and last names with a numeric suffix, employee ids drawn from a
  random source, and the CSV text the script writes.
 */
module Generator {
  import opened Options
  import opened Text
  import opened CsvFormat

  const Domain: string := "@yopmail.com"

  /** The suffix for a counter value: nothing for 0, its decimal numeral otherwise. */
  function Suffix(counter: nat): string {
    if counter == 0 then "" else Decimal(counter)
  }

  /** The address tried for a given counter value. */
  function Candidate(first: string, last: string, counter: nat): string {
    Lower(first) + "." + Lower(last) + Suffix(counter) + Domain
  }

  lemma SuffixInjective(m: nat, n: nat)
    requires Suffix(m) == Suffix(n)
    ensures m == n
  {
    if m != 0 && n != 0 {
      DecimalInjective(m, n);
    }
  }

  /** Different counter values give different addresses, so the search never revisits one. */
  lemma CandidateInjective(first: string, last: string, m: nat, n: nat)
    requires Candidate(first, last, m) == Candidate(first, last, n)
    ensures m == n
  {
    var prefix := Lower(first) + "." + Lower(last);
    var a, b := Candidate(first, last, m), Candidate(first, last, n);
    assert a == prefix + Suffix(m) + Domain;
    assert b == prefix + Suffix(n) + Domain;
    assert |Suffix(m)| == |Suffix(n)|;
    assert Suffix(m) == a[|prefix|..|prefix| + |Suffix(m)|];
    assert Suffix(n) == b[|prefix|..|prefix| + |Suffix(n)|];
    SuffixInjective(m, n);
  }

  /**
    An address can be read back: it is the lower-cased names joined by a dot,
    then the suffix, then the domain; the suffix is empty exactly for counter 0
    and otherwise is digits denoting the counter.
   */
  lemma CandidateReadBack(first: string, last: string, n: nat)
    ensures var c, p := Candidate(first, last, n), |Lower(first)| + 1 + |Lower(last)|;
      && p + |Domain| <= |c|
      && c[..p] == Lower(first) + "." + Lower(last)
      && c[|c| - |Domain|..] == Domain
      && (n == 0 <==> |c| == p + |Domain|)
      && (n > 0 ==> (forall k :: p <= k < |c| - |Domain| ==> IsDigit(c[k]))
                    && DecimalValue(c[p..|c| - |Domain|]) == n)
  {
    var c, p := Candidate(first, last, n), |Lower(first)| + 1 + |Lower(last)|;
    var name := Lower(first) + "." + Lower(last);
    assert c == name + Suffix(n) + Domain;
    assert c[p..|c| - |Domain|] == Suffix(n);
    if n > 0 {
      DecimalRoundTrip(n);
    }
  }

  /** The addresses tried before counter value `n`. */
  function CandidatesBelow(first: string, last: string, n: nat): set<string> {
    set i: nat | i < n :: Candidate(first, last, i)
  }

  lemma {:induction false} CandidatesBelowSize(first: string, last: string, n: nat)
    ensures |CandidatesBelow(first, last, n)| == n
  {
    if n > 0 {
      CandidatesBelowSize(first, last, n - 1);
      var below := CandidatesBelow(first, last, n - 1);
      assert CandidatesBelow(first, last, n) == below + {Candidate(first, last, n - 1)};
      if Candidate(first, last, n - 1) in below {
        var i: nat :| i < n - 1 && Candidate(first, last, i) == Candidate(first, last, n - 1);
        CandidateInjective(first, last, i, n - 1);
      }
    }
  }

  /** `n` is the counter value the search stops at: every earlier address is taken, this one is free. */
  ghost predicate LeastFree(first: string, last: string, used: set<string>, n: nat) {
    && Candidate(first, last, n) !in used
    && forall i: nat :: i < n ==> Candidate(first, last, i) in used
  }

  /** `email` is the address for the least free counter value, which is at most `|used|`. */
  ghost predicate ChosenAddress(first: string, last: string, used: set<string>, email: string) {
    exists n: nat :: n <= |used| && email == Candidate(first, last, n) && LeastFree(first, last, used, n)
  }

  /** In particular the unsuffixed address is chosen whenever it is free. */
  lemma UnsuffixedChosenWhenFree(first: string, last: string, used: set<string>, email: string)
    requires ChosenAddress(first, last, used, email)
    requires Candidate(first, last, 0) !in used
    ensures email == Candidate(first, last, 0)
  {
  }

  /** There is only one such value. */
  lemma LeastFreeUnique(first: string, last: string, used: set<string>, m: nat, n: nat)
    requires LeastFree(first, last, used, m) && LeastFree(first, last, used, n)
    ensures m == n
  {
  }

  /**
    `generateUniqueEmail`: tries the counter values 0, 1, 2, ... and returns the
    first address not in `used`, which it adds to the set. At most `|used| + 1`
    values are tried, because the addresses tried and found taken are distinct
    members of `used`.
   */
  method GenerateUniqueEmail(first: string, last: string, used: set<string>)
    returns (email: string, used': set<string>)
    ensures email !in used
    ensures used' == used + {email}
    ensures ChosenAddress(first, last, used, email)
  {
    var counter: nat := 0;
    email := Candidate(first, last, counter);
    counter := counter + 1;
    while email in used
      invariant counter >= 1
      invariant email == Candidate(first, last, counter - 1)
      invariant CandidatesBelow(first, last, counter - 1) <= used
      invariant counter - 1 <= |used|
      decreases |used| - (counter - 1)
    {
      assert CandidatesBelow(first, last, counter) == CandidatesBelow(first, last, counter - 1) + {email};
      CandidatesBelowSize(first, last, counter);
      assert CandidatesBelow(first, last, counter) <= used;
      assert counter <= |used| by {
        var below := CandidatesBelow(first, last, counter);
        assert |below| <= |used| by {
          SubsetSize(below, used);
        }
      }
      email := Candidate(first, last, counter);
      counter := counter + 1;
    }
    used' := used + {email};
    assert email == Candidate(first, last, counter - 1);
    assert LeastFree(first, last, used, counter - 1) by {
      forall i: nat | i < counter - 1
        ensures Candidate(first, last, i) in used
      {
        assert Candidate(first, last, i) in CandidatesBelow(first, last, counter - 1);
      }
    }
  }

  lemma SubsetSize<T>(a: set<T>, b: set<T>)
    requires a <= b
    ensures |a| <= |b|
  {
    assert b == a + (b - a);
  }

  // ---------------------------------------------------------------------------
  // Employee ids (generate-csv.js:26-33)
  // ---------------------------------------------------------------------------

  /** The id for one draw of `Math.floor(1000 + Math.random() * 9000)`. */
  function EmployeeId(draw: nat): string {
    "HAYHAH" + Decimal(draw)
  }

  predicate FourDigitDraws(draws: seq<nat>) {
    forall k :: 0 <= k < |draws| ==> 1000 <= draws[k] <= 9999
  }

  /** Draw `k` is the first whose id is not yet used. */
  predicate FirstFreeAt(draws: seq<nat>, usedIds: set<string>, k: nat) {
    && k < |draws|
    && EmployeeId(draws[k]) !in usedIds
    && forall j :: 0 <= j < k ==> EmployeeId(draws[j]) in usedIds
  }

  /** The id handed out and the id set after it is recorded. */
  datatype IdPick = IdPick(id: string, usedIds: set<string>)

  /**
    `generateUniqueEmployeeId` fed the random draws in order: the id of the
    first draw not already used, added to the set, or `None` if every supplied
    draw collides.
   */
  function PickEmployeeId(draws: seq<nat>, usedIds: set<string>): (r: Option<IdPick>)
    ensures r.Some? ==> r.value.id !in usedIds && r.value.usedIds == usedIds + {r.value.id}
    ensures r.Some? ==> exists k: nat :: FirstFreeAt(draws, usedIds, k) && r.value.id == EmployeeId(draws[k])
    ensures r.None? <==> forall k :: 0 <= k < |draws| ==> EmployeeId(draws[k]) in usedIds
    ensures r.Some? && FourDigitDraws(draws) ==> |r.value.id| == 10
  {
    if draws == [] then None
    else if EmployeeId(draws[0]) !in usedIds then
      EmployeeIdWidth(draws, 0);
      assert FirstFreeAt(draws, usedIds, 0);
      Some(IdPick(EmployeeId(draws[0]), usedIds + {EmployeeId(draws[0])}))
    else
      var r := PickEmployeeId(draws[1..], usedIds);
      assert forall k :: 1 <= k < |draws| ==> draws[k] == draws[1..][k - 1];
      if r.Some? then
        FirstFreeShift(draws, usedIds, r.value.id);
        r
      else r
  }

  /** A first free draw among the later draws is the first free draw overall when draw 0 collides. */
  lemma FirstFreeShift(draws: seq<nat>, usedIds: set<string>, id: string)
    requires draws != [] && EmployeeId(draws[0]) in usedIds
    requires exists k: nat :: FirstFreeAt(draws[1..], usedIds, k) && id == EmployeeId(draws[1..][k])
    ensures exists k: nat :: FirstFreeAt(draws, usedIds, k) && id == EmployeeId(draws[k])
  {
  }

  lemma EmployeeIdWidth(draws: seq<nat>, k: nat)
    requires k < |draws|
    ensures FourDigitDraws(draws) ==> |EmployeeId(draws[k])| == 10
  {
    if FourDigitDraws(draws) {
      DecimalOfFourDigits(draws[k]);
    }
  }

  // ---------------------------------------------------------------------------
  // The generated file (generate-csv.js:35-45)
  // ---------------------------------------------------------------------------

  /** The names and id of one generated record, supplied from outside (faker and the id draws). */
  datatype Person = Person(employeeId: string, firstName: string, lastName: string)

  /** The record lines for `people` with their addresses, in order. */
  function Body(people: seq<Person>, emails: seq<string>): string
    requires |people| == |emails|
  {
    if people == [] then ""
    else Body(people[..|people| - 1], emails[..|emails| - 1])
         + FormatRow(people[|people| - 1].employeeId, people[|people| - 1].firstName,
                     people[|people| - 1].lastName, emails[|emails| - 1])
  }

  /**
    The script's main loop: one record per person, each with a fresh address.
    Each address is the one `generateUniqueEmail` picks for that person's names
    against the addresses handed out before it. The addresses are pairwise
    distinct, none was in the initial set, and the set ends up holding exactly
    the initial addresses and the new ones.
   */
  method GenerateCsv(people: seq<Person>, used: set<string>)
    returns (csv: string, emails: seq<string>, used': set<string>)
    ensures |emails| == |people|
    ensures ChosenInOrder(people, used, emails)
    ensures FreshAndDistinct(used, emails, used')
    ensures |Header| <= |csv| && csv[..|Header|] == Header && csv[|Header|..] == Body(people, emails)
  {
    var rows := "";
    emails := [];
    used' := used;
    for n := 0 to |people|
      invariant |emails| == n
      invariant ChosenInOrder(people, used, emails)
      invariant FreshAndDistinct(used, emails, used')
      invariant rows == Body(people[..n], emails)
    {
      var p := people[n];
      var email, after := GenerateUniqueEmail(p.firstName, p.lastName, used');
      ChosenStep(people, used, emails, email);
      FreshStep(used, emails, used', email, after);
      BodyStep(people, emails, n, email);
      emails, used' := emails + [email], after;
      rows := rows + FormatRow(p.employeeId, p.firstName, p.lastName, email);
    }
    assert people[..|people|] == people;
    csv := Header + rows;
    assert csv[..|Header|] == Header && csv[|Header|..] == rows;
  }

  function Addresses(emails: seq<string>): set<string> {
    set e | e in emails
  }

  /** The addresses handed out so far: none was initially used, no two are equal, and all are now used. */
  predicate FreshAndDistinct(initial: set<string>, emails: seq<string>, current: set<string>) {
    && (forall i :: 0 <= i < |emails| ==> emails[i] !in initial)
    && (forall i, j :: 0 <= i < j < |emails| ==> emails[i] != emails[j])
    && current == initial + Addresses(emails)
  }

  /**
    The address of each record is the one chosen for that record's names
    against the initial set plus the addresses of the records before it.
   */
  ghost predicate ChosenInOrder(people: seq<Person>, initial: set<string>, emails: seq<string>)
    decreases |emails|
  {
    && |emails| <= |people|
    && (emails != [] ==>
          var n := |emails| - 1;
          && ChosenInOrder(people, initial, emails[..n])
          && ChosenAddress(people[n].firstName, people[n].lastName, initial + Addresses(emails[..n]), emails[n]))
  }

  /** Read record by record: address `i` was chosen against the addresses before it. */
  lemma {:induction false} ChosenInOrderAt(people: seq<Person>, initial: set<string>, emails: seq<string>, i: nat)
    requires ChosenInOrder(people, initial, emails) && i < |emails|
    ensures ChosenAddress(people[i].firstName, people[i].lastName, initial + Addresses(emails[..i]), emails[i])
    decreases |emails|
  {
    var n := |emails| - 1;
    var before := emails[..n];
    assert ChosenInOrder(people, initial, before);
    if i < n {
      ChosenInOrderAt(people, initial, before, i);
      assert before[..i] == emails[..i];
      assert before[i] == emails[i];
    } else {
      assert before == emails[..i];
    }
  }

  lemma ChosenStep(people: seq<Person>, initial: set<string>, emails: seq<string>, email: string)
    requires ChosenInOrder(people, initial, emails) && |emails| < |people|
    requires ChosenAddress(people[|emails|].firstName, people[|emails|].lastName,
                           initial + Addresses(emails), email)
    ensures ChosenInOrder(people, initial, emails + [email])
  {
  }

  lemma FreshStep(initial: set<string>, emails: seq<string>, current: set<string>, email: string, next: set<string>)
    requires FreshAndDistinct(initial, emails, current)
    requires email !in current && next == current + {email}
    ensures FreshAndDistinct(initial, emails + [email], next)
  {
  }

  lemma BodyStep(people: seq<Person>, emails: seq<string>, n: nat, email: string)
    requires n < |people| && |emails| == n
    ensures Body(people[..n + 1], emails + [email])
         == Body(people[..n], emails) + FormatRow(people[n].employeeId, people[n].firstName, people[n].lastName, email)
  {
    assert people[..n + 1][..n] == people[..n];
    assert (emails + [email])[..n] == emails;
  }
}
