/** The unit tests of the float module, each stated as a lemma about the
    model: the inputs satisfy the operation's no-panic predicate and the
    result is the expected float. */
module ZkFloatTests {
  import opened Decimal
  import opened ZkFloat

  /** relu keeps a positive number as it is. */
  lemma ReluTest()
    ensures Relu(Float(true, 12345, 98)) == Float(true, 12345, 98)
  {
  }

  /** truncate drops the eighth digit of 12345678 and raises the exponent. */
  lemma TruncateTest()
    ensures TruncateFits(Float(true, 12345678, 98))
    ensures Truncation(Float(true, 12345678, 98)) == Float(true, 1234567, 99)
  {
    LookupIsPowers();
    DigitsExactly(12345678, 8);
    assert Excess(12345678) == 1;
  }

  /** 1234.56 * 1234.56 = 1524138.3936, kept to seven digits. */
  lemma MultiplyTest()
    ensures MultiplyFits(Float(true, 123456, 98), Float(true, 123456, 98))
    ensures Multiply(Float(true, 123456, 98), Float(true, 123456, 98)) == Float(true, 1524138, 100)
  {
    LookupIsPowers();
    DigitsExactly(15241383936, 11);
    assert Excess(15241383936) == 4;
    assert ProductRaw(Float(true, 123456, 98), Float(true, 123456, 98)) == Float(true, 15241383936, 96);
  }

  /** A number divided by itself is 1.000000. */
  lemma DivideTest()
    ensures DivideFits(Float(true, 123456, 98), Float(true, 123456, 98))
    ensures Quotient(Float(true, 123456, 98), Float(true, 123456, 98)) == Ok(Float(true, 1000000, 94))
  {
    DivideBySelf(Float(true, 123456, 98));
  }

  /** 1234.56 + 1234.56 = 2469.12, exactly. */
  lemma AddTest()
    ensures AddFits(Float(true, 123456, 98), Float(true, 123456, 98))
    ensures Add(Float(true, 123456, 98), Float(true, 123456, 98)) == Float(true, 246912, 98)
  {
    LookupIsPowers();
    DigitsExactly(246912, 6);
    assert Excess(246912) == 0;
    assert SumRaw(Float(true, 123456, 98), Float(true, 123456, 98)) == Float(true, 246912, 98);
  }

  /** 4699.08 - 13.4566 = 4685.6234, kept to seven digits. */
  lemma SubtractTest()
    ensures AddFits(Float(true, 469908, 98), Negate(Float(true, 134566, 96)))
    ensures Subtract(Float(true, 469908, 98), Float(true, 134566, 96)) == Float(true, 4685623, 97)
  {
    LookupIsPowers();
    DigitsExactly(46856234, 8);
    assert Excess(46856234) == 1;
    var x, y := Float(true, 469908, 98), Negate(Float(true, 134566, 96));
    assert AlignedLeft(x, y) == 46990800 && AlignedRight(x, y) == 134566;
    assert SumRaw(x, y) == Float(true, 46856234, 96);
  }
}
