/** Regrouping steps for long string concatenations. Each states that two
    bracketings of the same pieces are equal; the rendering proofs instantiate
    them with tag literals, which the solver does not regroup on its own. */
module Concat {

  lemma ThreeWrappersRegroup<T>(a: seq<T>, b: seq<T>, c: seq<T>, t: seq<T>, c': seq<T>, b': seq<T>, a': seq<T>)
    ensures a + (b + (c + t + c') + b') + a' == a + b + c + t + c' + b' + a'
  {
  }

  lemma PageShellRegroup<T>(d: seq<T>, o1: seq<T>, o2: seq<T>, o3: seq<T>, t: seq<T>, c3: seq<T>,
                        c2: seq<T>, o4: seq<T>, b: seq<T>, c4: seq<T>, c1: seq<T>)
    ensures d + (o1 + ((o2 + (o3 + t + c3) + c2) + (o4 + b + c4)) + c1)
         == d + o1 + o2 + o3 + t + c3 + c2 + o4 + b + c4 + c1
  {
  }

  lemma BasicPageRegroup<T>(pre: seq<T>, x1: seq<T>, x2: seq<T>, x3: seq<T>, x4: seq<T>, x5: seq<T>,
                   x6: seq<T>, post1: seq<T>, post2: seq<T>)
    ensures pre + (x1 + x2 + x3 + (x4 + x5 + x6 + [])) + post1 + post2
         == pre + x1 + x2 + x3 + x4 + x5 + x6 + post1 + post2
  {
  }

  lemma MixedParagraphRegroup<T>(o: seq<T>, b: seq<T>, s1: seq<T>, s2: seq<T>, s3: seq<T>, s4: seq<T>,
                       s5: seq<T>, s6: seq<T>, s7: seq<T>, a: seq<T>, c: seq<T>)
    ensures o + (b + ((s1 + s2 + s3 + s4 + s5 + s6 + s7) + a)) + c
         == o + b + s1 + s2 + s3 + s4 + s5 + s6 + s7 + a + c
  {
  }

  lemma SixElementsRegroup<T>(o1: seq<T>, t1: seq<T>, c1: seq<T>, o2: seq<T>, t2: seq<T>, c2: seq<T>,
                     o3: seq<T>, t3: seq<T>, c3: seq<T>, o4: seq<T>, t4: seq<T>, c4: seq<T>,
                     o5: seq<T>, t5: seq<T>, c5: seq<T>, o6: seq<T>, t6: seq<T>, c6: seq<T>)
    ensures (o1 + t1 + c1) + ((o2 + t2 + c2) + ((o3 + t3 + c3) + ((o4 + t4 + c4)
              + ((o5 + t5 + c5) + ((o6 + t6 + c6) + [])))))
         == o1 + t1 + c1 + o2 + t2 + c2 + o3 + t3 + c3 + o4 + t4 + c4 + o5 + t5 + c5 + o6 + t6 + c6
  {
  }
}
