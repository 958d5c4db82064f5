/**
 * The role vocabulary of the application and the normalisation of a free-form
 * role string into it. User creation, user editing and login each perform the
 * same normalisation; all three are modelled by `NormalizeRole`.
 */
module Roles {
  import opened Wrappers
  import opened Text

  const Admin: string := "Admin"
  const Employee: string := "Empleado"
  const Customer: string := "Cliente"

  predicate IsKnownRole(r: string) {
    r == Admin || r == Employee || r == Customer
  }

  /**
   * `(raw ?? "Cliente").Trim()`, then "admin" and "empleado" compared
   * case-insensitively; everything else, null included, becomes "Cliente".
   */
  function NormalizeRole(raw: Option<string>): (r: string)
    ensures IsKnownRole(r)
    ensures r == Admin <==> raw.Some? && EqualsIgnoreCase(Trim(raw.value), "admin")
    ensures r == Employee <==> raw.Some? && EqualsIgnoreCase(Trim(raw.value), "empleado")
    ensures raw.None? ==> r == Customer
  {
    var role := Trim(raw.GetOr(Customer));
    assert raw.None? ==> role == Customer by {
      if raw.None? { TrimmedIsFixed(Customer); }
    }
    if EqualsIgnoreCase(role, "admin") then Admin
    else if EqualsIgnoreCase(role, "empleado") then Employee
    else Customer
  }

  /** Each canonical role name trims to itself. */
  lemma TrimmedIsFixed(s: string)
    requires IsKnownRole(s)
    ensures Trim(s) == s
  {
    assert !IsWhiteSpace(s[0]) && !IsWhiteSpace(s[|s| - 1]);
    TrimWithNoWhiteEnds(s, IsWhiteSpace);
  }

  /** A canonical role name normalises to itself. */
  lemma NormalizeCanonical(r: string)
    requires IsKnownRole(r)
    ensures NormalizeRole(Some(r)) == r
  {
    if r == Admin {
      NormalizeAdmin();
    } else if r == Employee {
      NormalizeEmployee();
    } else {
      NormalizeCustomer();
    }
  }

  /** "Admin" normalises to itself. */
  lemma NormalizeAdmin()
    ensures NormalizeRole(Some(Admin)) == Admin
  {
    TrimmedIsFixed(Admin);
    AdminMatches();
  }

  /** "Empleado" normalises to itself. */
  lemma NormalizeEmployee()
    ensures NormalizeRole(Some(Employee)) == Employee
  {
    TrimmedIsFixed(Employee);
    assert |Employee| != |"admin"|;
    EmployeeMatches();
  }

  /** "Cliente" normalises to itself. */
  lemma NormalizeCustomer()
    ensures NormalizeRole(Some(Customer)) == Customer
  {
    TrimmedIsFixed(Customer);
    assert |Customer| != |"admin"| && |Customer| != |"empleado"|;
  }

  /** "Admin" equals "admin" ignoring case. */
  lemma AdminMatches()
    ensures EqualsIgnoreCase(Admin, "admin")
  {
    assert UpperAscii('a') == 'A' && UpperAscii('d') == 'D' && UpperAscii('m') == 'M';
    assert UpperAscii('i') == 'I' && UpperAscii('n') == 'N';
  }

  /** "Empleado" equals "empleado" ignoring case. */
  lemma EmployeeMatches()
    ensures EqualsIgnoreCase(Employee, "empleado")
  {
    assert UpperAscii('e') == 'E' && UpperAscii('m') == 'M' && UpperAscii('p') == 'P';
    assert UpperAscii('l') == 'L' && UpperAscii('a') == 'A' && UpperAscii('d') == 'D';
    assert UpperAscii('o') == 'O';
  }

  /** Normalising an already normalised role gives it back. */
  lemma NormalizeRoleIdempotent(raw: Option<string>)
    ensures NormalizeRole(Some(NormalizeRole(raw))) == NormalizeRole(raw)
  {
    NormalizeCanonical(NormalizeRole(raw));
  }

  /** White space around a role name does not change its normalisation. */
  lemma NormalizeRoleIgnoresPadding(w1: string, s: string, w2: string)
    requires AllSatisfy(w1, IsWhiteSpace) && AllSatisfy(w2, IsWhiteSpace)
    requires |s| > 0 && !IsWhiteSpace(s[0]) && !IsWhiteSpace(s[|s| - 1])
    ensures NormalizeRole(Some(w1 + s + w2)) == NormalizeRole(Some(s))
  {
    TrimWithPadded(w1, s, w2, IsWhiteSpace);
    TrimWithNoWhiteEnds(s, IsWhiteSpace);
    NormalizeRoleSeesTrimOnly(w1 + s + w2, s);
  }

  /** Normalisation looks only at the trimmed text. */
  lemma NormalizeRoleSeesTrimOnly(a: string, b: string)
    requires Trim(a) == Trim(b)
    ensures NormalizeRole(Some(a)) == NormalizeRole(Some(b))
  {
  }

  /** Two role strings whose trimmed texts differ only in ASCII letter case normalise alike. */
  lemma NormalizeRoleCaseInsensitive(a: string, b: string)
    requires EqualsIgnoreCase(Trim(a), Trim(b))
    ensures NormalizeRole(Some(a)) == NormalizeRole(Some(b))
  {
    EqualsIgnoreCaseAgree(Trim(a), Trim(b), "admin");
    EqualsIgnoreCaseAgree(Trim(a), Trim(b), "empleado");
  }

  /** Strings equal up to case are equal up to case to the same third strings. */
  lemma EqualsIgnoreCaseAgree(a: string, b: string, c: string)
    requires EqualsIgnoreCase(a, b)
    ensures EqualsIgnoreCase(a, c) <==> EqualsIgnoreCase(b, c)
  {
  }

  /** Letter case does not matter: "ADMIN" is "Admin". */
  lemma NormalizeRoleIgnoresCase()
    ensures NormalizeRole(Some("ADMIN")) == Admin
  {
    assert EqualsIgnoreCase("ADMIN", "admin") by {
      assert UpperAscii('a') == 'A' && UpperAscii('d') == 'D' && UpperAscii('m') == 'M';
      assert UpperAscii('i') == 'I' && UpperAscii('n') == 'N';
    }
    TrimWithNoWhiteEnds("ADMIN", IsWhiteSpace);
  }

  /** Text that merely starts like a role name is "Cliente". */
  lemma NormalizeRoleWholeWordOnly()
    ensures NormalizeRole(Some("Administrador")) == Customer
  {
    var s := "Administrador";
    assert Trim(s) == s by { TrimWithNoWhiteEnds(s, IsWhiteSpace); }
    assert |s| == 13;
  }
}
