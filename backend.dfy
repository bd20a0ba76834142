/**
 * The layer registry of a backend (src/core/backend.cpp) and the CPU backend
 * (src/backend/cpu/backend_cpu.cpp): a LayerFactory maps layer types to the constructors
 * registered for them; the CPU backend registers its six layers and places Mats in memory
 * taken from its Allocator.
 *
 * Layer types are named, not numbered (the LayerType enumeration is not part of this model),
 * and a constructor is named by the layer class it makes.  The mutex that guards the map is
 * left out.  M_Error and M_Error_ throw; the model returns Err(...) instead.
 */
module Backends {
  import opened Wrappers
  import opened Define
  import opened Shape
  import opened MemoryUtils
  import opened CoreMat
  import opened CoreAllocator

  /** The layer types the model names; any other is Other(code). */
  datatype LayerType = Input | Output | Add | Attention | FFN | Embedding | RMSNorm | Linear | Other(code: int)

  /** A registered constructor, _layerDynamicRegister<LayerClass>, by the class it creates. */
  datatype LayerClass = AddLayer | InputLayer | OutputLayer | AttentionLayer | FeedForwardLayer | EmbeddingLayer

  /** The errors the registry raises. */
  datatype FactoryError = NoLayersRegistered | AlreadyRegistered(t: LayerType) | NotRegistered(t: LayerType)

  /** The registrations LayerFactoryCPU::registerAllLayer makes, in order. */
  const CPU_LAYERS: seq<(LayerType, LayerClass)> := [
    (Add, AddLayer), (Input, InputLayer), (Output, OutputLayer),
    (Attention, AttentionLayer), (FFN, FeedForwardLayer), (Embedding, EmbeddingLayer)]

  /** The registry after the CPU registrations, on a map without any of their types. */
  function CpuMap(old_: map<LayerType, LayerClass>): map<LayerType, LayerClass>
  {
    old_[Add := AddLayer][Input := InputLayer][Output := OutputLayer]
        [Attention := AttentionLayer][FFN := FeedForwardLayer][Embedding := EmbeddingLayer]
  }

  /** The six types the CPU backend registers. */
  predicate CpuType(t: LayerType)
  {
    t == Add || t == Input || t == Output || t == Attention || t == FFN || t == Embedding
  }

  /** The CPU map holds every type of the old map and the six CPU types, and nothing else. */
  lemma CpuMapTypes(old_: map<LayerType, LayerClass>, t: LayerType)
    ensures t in CpuMap(old_) <==> t in old_ || CpuType(t)
    ensures CpuType(t) ==> CpuMap(old_)[t] == (match t
                                                case Add => AddLayer
                                                case Input => InputLayer
                                                case Output => OutputLayer
                                                case Attention => AttentionLayer
                                                case FFN => FeedForwardLayer
                                                case _ => EmbeddingLayer)
    ensures !CpuType(t) && t in old_ ==> CpuMap(old_)[t] == old_[t]
  {
  }

  /** Each CPU registration is the entry of CPU_LAYERS for its type. */
  lemma CpuLayersListed(t: LayerType)
    ensures CpuType(t) <==> exists i :: 0 <= i < |CPU_LAYERS| && CPU_LAYERS[i].0 == t
    ensures forall i :: 0 <= i < |CPU_LAYERS| ==> CpuMap(map[])[CPU_LAYERS[i].0] == CPU_LAYERS[i].1
  {
    if CpuType(t) {
      var i := if t == Add then 0 else if t == Input then 1 else if t == Output then 2
               else if t == Attention then 3 else if t == FFN then 4 else 5;
      assert CPU_LAYERS[i].0 == t;
    }
  }

  // ---------------------------------------------------------------- Backend::LayerFactory

  class LayerFactory {
    /** layerMap: the constructor registered for each layer type. */
    var layerMap: map<LayerType, LayerClass>

    /** LayerFactory(): an empty registry. */
    constructor()
      ensures layerMap == map[]
    {
      layerMap := map[];
    }

    /** The base registerAllLayer: always an error, registering nothing. */
    method RegisterAllLayerBase() returns (r: Result<(), FactoryError>)
      ensures r == Err(NoLayersRegistered)
    {
      return Err(NoLayersRegistered);
    }

    /**
     * registerLayer(type, constructor): an error when the type already has a constructor,
     * the map unchanged; otherwise the map gains exactly that entry.
     */
    method RegisterLayer(t: LayerType, c: LayerClass) returns (r: Result<(), FactoryError>)
      modifies this
      ensures t in old(layerMap) ==> r == Err(AlreadyRegistered(t)) && layerMap == old(layerMap)
      ensures t !in old(layerMap) ==> r == Ok(()) && layerMap == old(layerMap)[t := c]
    {
      if t in layerMap {
        return Err(AlreadyRegistered(t));
      }
      layerMap := layerMap[t := c];
      return Ok(());
    }

    /** createLayerInstance(param): the registered constructor for the type, or an error. */
    method CreateLayerInstance(t: LayerType) returns (r: Result<LayerClass, FactoryError>)
      ensures t in layerMap ==> r == Ok(layerMap[t])
      ensures t !in layerMap ==> r == Err(NotRegistered(t))
    {
      if t !in layerMap {
        return Err(NotRegistered(t));
      }
      return Ok(layerMap[t]);
    }

    /** checkLayerSupported(param): whether the type has a constructor. */
    method CheckLayerSupported(t: LayerType) returns (b: bool)
      ensures b <==> t in layerMap
    {
      b := t in layerMap;
    }

    /**
     * LayerFactoryCPU::registerAllLayer: Add, Input, Output, Attention, FFN and Embedding in
     * turn.  On a map without any of them all six are added; otherwise the first one already
     * there raises the error, after the ones before it were added.
     */
    method RegisterCpuLayers() returns (r: Result<(), FactoryError>)
      modifies this
      ensures (forall t :: CpuType(t) ==> t !in old(layerMap)) ==> r == Ok(()) && layerMap == CpuMap(old(layerMap))
      ensures (exists t :: CpuType(t) && t in old(layerMap)) ==> r.Err?
      ensures old(layerMap).Keys <= layerMap.Keys
      ensures forall t :: t in layerMap ==> t in old(layerMap) || CpuType(t)
    {
      r := RegisterLayer(Add, AddLayer);
      if r.Err? { return; }
      r := RegisterLayer(Input, InputLayer);
      if r.Err? { return; }
      r := RegisterLayer(Output, OutputLayer);
      if r.Err? { return; }
      r := RegisterLayer(Attention, AttentionLayer);
      if r.Err? { return; }
      r := RegisterLayer(FFN, FeedForwardLayer);
      if r.Err? { return; }
      r := RegisterLayer(Embedding, EmbeddingLayer);
    }
  }

  // ---------------------------------------------------------------- Backend

  class Backend {
    var name: string
    /** allocMemSize: what getAllMemory reports. */
    var allocMemSize: nat
    var layerFactory: LayerFactory?

    /** Backend(name): no memory counted and no factory yet. */
    constructor(backendName: string)
      ensures name == backendName && allocMemSize == 0 && layerFactory == null
    {
      name := backendName;
      allocMemSize := 0;
      layerFactory := null;
    }

    /** Backend::checkLayerSupported asserts a factory exists, then asks it. */
    method CheckLayerSupported(t: LayerType) returns (b: bool)
      requires layerFactory != null
      ensures b <==> t in layerFactory.layerMap
    {
      b := layerFactory.CheckLayerSupported(t);
    }
  }

  // ---------------------------------------------------------------- BackendCPU

  /** The bytes a Mat of these extents and this type takes: total() * DT_ELEM_SIZE(type). */
  function MatBytes(sizes: seq<int>, t: nat): nat
    requires forall d :: 0 <= d < |sizes| ==> sizes[d] >= 0
    requires t < 16
  {
    ProductNonNegative(sizes);
    Product(sizes) * ElemSize(t)
  }

  class BackendCpu {
    var name: string
    var allocMemSize: nat
    const layerFactory: LayerFactory
    const allocator: Allocator

    /**
     * BackendCPU(): a LayerFactoryCPU, whose constructor registers the six CPU layers, and an
     * Allocator with the default alignment.
     */
    constructor()
      ensures name == "" && allocMemSize == 0
      ensures fresh(layerFactory) && layerFactory.layerMap == CpuMap(map[])
      ensures fresh(allocator) && allocator.Valid() && allocator.poolAlign == MEMORY_ALIGN_DEFAULT
      ensures allocator.usedList == [] && allocator.freeList == [] && allocator.totalSize == 0
    {
      name := "";
      allocMemSize := 0;
      var f := new LayerFactory();
      var _ := f.RegisterCpuLayers();
      layerFactory := f;
      allocator := new Allocator(MEMORY_ALIGN_DEFAULT);
    }

    /** The registry keeps its types across every registration this backend made. */
    lemma Supported(t: LayerType)
      requires layerFactory.layerMap == CpuMap(map[])
      ensures t in layerFactory.layerMap <==> CpuType(t)
    {
      CpuMapTypes(map[], t);
    }

    /** createLayer(param): asserts the type is supported, then creates the instance. */
    method CreateLayer(t: LayerType) returns (r: LayerClass)
      requires t in layerFactory.layerMap
      ensures r == layerFactory.layerMap[t]
    {
      var b := layerFactory.CheckLayerSupported(t);
      var made := layerFactory.CreateLayerInstance(t);
      r := made.value;
    }

    /**
     * allocMat(m): total() * DT_ELEM_SIZE(type) bytes from the allocator, with the default
     * alignment; m's data points at the block it returns.  `obtained` is what the system
     * allocation returns when no free block fits.
     */
    method AllocMat(m: Mat, obtained: nat) returns (p: Block)
      requires m.Valid() && allocator.Valid() && allocator.poolAlign == MEMORY_ALIGN_DEFAULT
      requires forall d :: 0 <= d < |m.sizes| ==> m.sizes[d] >= 0
      requires var size := MatBytes(m.sizes, m.matType);
               var k := LowerBound(allocator.freeList, RealSize(size, MEMORY_ALIGN_DEFAULT, MEMORY_ALIGN_DEFAULT));
               size > 0 || (k < |allocator.freeList| && allocator.freeList[k].ptr != 0)
      modifies m, allocator
      ensures allocator.Valid()
      ensures m.dims == old(m.dims) && m.sizes == old(m.sizes) && m.u == old(m.u) && m.matType == old(m.matType)
      ensures m.Valid() && m.data == p.ptr
      ensures var size := MatBytes(m.sizes, m.matType);
              var k := LowerBound(old(allocator.freeList), RealSize(size, MEMORY_ALIGN_DEFAULT, MEMORY_ALIGN_DEFAULT));
              p == (if k < |old(allocator.freeList)| && old(allocator.freeList)[k].ptr != 0
                    then old(allocator.freeList)[k] else Block(AlignedSize(size, MEMORY_ALIGN_DEFAULT), obtained))
    {
      var totalMem := MatBytes(m.sizes, m.matType);
      p := allocator.Alloc(totalMem, 0, obtained);
      m.data := p.ptr;
    }

    /**
     * deallocMat(m): the block (data, total() * DT_ELEM_SIZE(type)) goes back to the free
     * list, not to the system; m keeps its data pointer.
     */
    method DeallocMat(m: Mat)
      requires m.Valid() && allocator.Valid()
      requires forall d :: 0 <= d < |m.sizes| ==> m.sizes[d] >= 0
      modifies allocator
      ensures allocator.Valid()
      ensures allocator.freeList == Insert(old(allocator.freeList), Block(MatBytes(m.sizes, m.matType), m.data))
      ensures allocator.usedList == old(allocator.usedList) && allocator.totalSize == old(allocator.totalSize)
    {
      var totalMem := MatBytes(m.sizes, m.matType);
      allocator.ReturnMemory(Block(totalMem, m.data));
    }
  }
}
