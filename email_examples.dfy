/**
 * The strings the unit tests of `validarEmail` (tests/app.test.js) check, and
 * further edge cases of the pattern, evaluated on the checker.
 */
module EmailExamples {
  import opened EmailValidation

  /** The strings the unit tests of `validarEmail` expect to be accepted. */
  lemma UnitTestsAccepted()
    ensures ValidarEmail("teste@exemplo.com")
    ensures ValidarEmail("usuario@dominio.pt")
  {
    {
      var s := "teste@exemplo.com";
      assert Scan(Domain, s, 12) == Complete;
      assert Scan(AfterAt, s, 6) == Scan(Domain, s, 12);
      assert Scan(Start, s, 0) == Scan(AfterAt, s, 6);
    }
    {
      var s := "usuario@dominio.pt";
      assert Scan(Domain, s, 12) == Complete;
      assert Scan(Local, s, 6) == Scan(Domain, s, 12);
      assert Scan(Start, s, 0) == Scan(Local, s, 6);
    }
  }

  /** The strings the unit tests of `validarEmail` expect to be rejected. */
  lemma UnitTestsRejected()
    ensures !ValidarEmail("email-invalido")
    ensures !ValidarEmail("sem@dominio")
    ensures !ValidarEmail("")
  {
    {
      var s := "email-invalido";
      assert Scan(Local, s, 12) == Local;
      assert Scan(Local, s, 6) == Scan(Local, s, 12);
      assert Scan(Start, s, 0) == Scan(Local, s, 6);
    }
    {
      var s := "sem@dominio";
      assert Scan(Domain, s, 6) == Domain;
      assert Scan(Start, s, 0) == Scan(Domain, s, 6);
    }
  }

  /** Dots may repeat anywhere, since `.` is itself in `[^\s@]`. */
  lemma RepeatedDotsAccepted()
    ensures ValidarEmail("a@b.c.d")
    ensures ValidarEmail("a@b..c")
    ensures ValidarEmail("a@..c")
    ensures ValidarEmail(".@b.c")
  {
  }

  /** A dot at either end of the domain, a second `@`, whitespace or an empty local part is rejected. */
  lemma MisplacedPartsRejected()
    ensures !ValidarEmail("a@.c")
    ensures !ValidarEmail("a@b.")
    ensures !ValidarEmail("a@@b.c")
    ensures !ValidarEmail("a b@c.d")
    ensures !ValidarEmail("@b.c")
    ensures !ValidarEmail("a@b.c\n")
  {
  }
}
