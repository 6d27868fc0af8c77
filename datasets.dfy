/** The dataset the tree is grown over, the gain ranking, and the foreign
    dataset operations the builder calls.  Only their interface is modelled:
    the storage of rows, the entropy arithmetic and the partitioning code
    are not part of this model. */
module DataSets {

  /** The kind of an attribute (AttributeType.NOMINAL or NUMERIC). */
  datatype AttributeType = Nominal | Numeric

  /** A column: its name, its kind and its distinct observed values. */
  datatype Attribute = Attribute(name: string, kind: AttributeType, values: seq<string>)

  /** A VirtualDataSet: the attributes (the last one is the class label),
      the number of rows, and the condition that selected these rows from
      the parent dataset.  numAttributes is the length of the attribute
      array. */
  datatype DataSet = DataSet(attributes: seq<Attribute>, numRows: nat, condition: string)
  {
    function NumAttributes(): nat
    {
      |attributes|
    }

    /** The class (label) attribute, attributes[numAttributes - 1]. */
    function Label(): Attribute
      requires |attributes| >= 1
    {
      attributes[|attributes| - 1]
    }
  }

  /** One entry of the gain ranking: the attribute, its kind and, for a
      numeric attribute, the value at which it is split. */
  datatype GainInfoItem = GainInfoItem(attributeName: string, attributeType: AttributeType, splitAt: string)

  /** The exceptions the builder throws. */
  datatype Exception =
    | IllegalArgument  // IllegalArgumentException: the training set is null
    | NullPointer      // NullPointerException: the node or its data is null
    | NoAttributes     // IllegalStateException "There should be at least one attribute."
    | NoDatapoints     // IllegalStateException "There should be at least one datapoint."

  /** The code the builder calls but that is not shown: the conversion of
      the training set into a view (toVirtual), the gain ranking
      (InformationGainCalculator.calculateAndSortInformationGains), and the
      two partitioning methods of a dataset.  `measure` is a size of a
      dataset that every partition strictly decreases; it stands for the
      termination argument the builder itself does not make. */
  datatype Collaborators = Collaborators(
    toVirtual: DataSet -> DataSet,
    rankByGain: DataSet -> seq<GainInfoItem>,
    partitionByNominal: (DataSet, nat) -> seq<DataSet>,
    partitionByNumeric: (DataSet, nat, nat) -> seq<DataSet>,
    measure: DataSet -> nat)
  {
    /** The contract of the collaborators: the ranking is never empty when
        there is at least one attribute besides the label, and every part
        of a partition is smaller than the dataset it came from. */
    ghost predicate Valid()
    {
      && (forall d: DataSet :: |d.attributes| >= 2 ==> |rankByGain(d)| > 0)
      && (forall d: DataSet, i: nat, k: int :: 0 <= k < |partitionByNominal(d, i)| ==>
            measure(partitionByNominal(d, i)[k]) < measure(d))
      && (forall d: DataSet, i: nat, j: nat, k: int :: 0 <= k < |partitionByNumeric(d, i, j)| ==>
            measure(partitionByNumeric(d, i, j)[k]) < measure(d))
    }
  }
}
